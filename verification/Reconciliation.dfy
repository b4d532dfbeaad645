/** Dividing the files to fetch among peers. */
module Reconciliation {
  import opened Arithmetic
  import opened Finite
  import opened VectorClocks

  datatype PeerCapabilities = PeerCapabilities(
    supportsCompression: bool, maxConcurrentTransfers: int, bandwidthLimit: int)

  type Assignment = map<PeerID, seq<string>>

  /** The files, in request order, that an ownership list gives to one peer. */
  function FilesOf(files: seq<string>, owners: seq<PeerID>, p: PeerID): seq<string>
    requires |owners| <= |files|
  {
    if owners == [] then []
    else
      var k := |owners| - 1;
      FilesOf(files, owners[..k], p) + if owners[k] == p then [files[k]] else []
  }

  /** A peer gets as many files as it has turns, and at each turn the file requested at that place. */
  lemma {:induction false} FilesComeInOrder(files: seq<string>, owners: seq<PeerID>, p: PeerID)
    requires |owners| <= |files|
    ensures |FilesOf(files, owners, p)| == multiset(owners)[p]
    ensures forall k :: 0 <= k < |owners| && owners[k] == p ==>
              multiset(owners[..k])[p] < |FilesOf(files, owners, p)|
              && FilesOf(files, owners, p)[multiset(owners[..k])[p]] == files[k]
  {
    if owners != [] {
      var n := |owners| - 1;
      FilesComeInOrder(files, owners[..n], p);
      assert owners == owners[..n] + [owners[n]];
      forall k | 0 <= k < |owners| && owners[k] == p
        ensures multiset(owners[..k])[p] < |FilesOf(files, owners, p)|
                && FilesOf(files, owners, p)[multiset(owners[..k])[p]] == files[k]
      {
        if k < n {
          assert owners[..n][..k] == owners[..k] && owners[..n][k] == p;
        }
      }
    }
  }

  // ---- assignment within capacity ----

  function Positive(x: int): nat {
    if x > 0 then x else 0
  }

  /** All the spare capacity there is. */
  ghost function TotalCapacity(m: map<PeerID, int>): nat
    decreases |m|
  {
    if m == map[] then 0
    else
      var p :| p in m;
      Positive(m[p]) + TotalCapacity(m - {p})
  }

  lemma {:induction false} TotalWithout(m: map<PeerID, int>, p: PeerID)
    requires p in m
    ensures TotalCapacity(m) == Positive(m[p]) + TotalCapacity(m - {p})
    decreases |m|
  {
    var q :| q in m && TotalCapacity(m) == Positive(m[q]) + TotalCapacity(m - {q});
    if q != p {
      TotalWithout(m - {q}, p);
      TotalWithout(m - {p}, q);
      assert m - {q} - {p} == m - {p} - {q};
    }
  }

  lemma UsingOne(m: map<PeerID, int>, p: PeerID)
    requires p in m && m[p] > 0
    ensures TotalCapacity(m[p := m[p] - 1]) == TotalCapacity(m) - 1
  {
    TotalWithout(m, p);
    TotalWithout(m[p := m[p] - 1], p);
    assert m[p := m[p] - 1] - {p} == m - {p};
  }

  lemma {:induction false} NothingLeft(m: map<PeerID, int>)
    ensures TotalCapacity(m) == 0 <==> forall p :: p in m ==> m[p] <= 0
    decreases |m|
  {
    if m != map[] {
      var q :| q in m;
      var rest := m - {q};
      TotalWithout(m, q);
      NothingLeft(rest);
      if TotalCapacity(m) == 0 {
        forall p | p in m
          ensures m[p] <= 0
        {
          assert p != q ==> p in rest && rest[p] == m[p];
        }
      }
    }
  }

  function Spare(capabilities: map<PeerID, PeerCapabilities>, load: map<PeerID, int>): map<PeerID, int> {
    map p | p in capabilities :: capabilities[p].maxConcurrentTransfers - if p in load then load[p] else 0
  }

  /** No peer is given more than it may have under way, counting what it is busy with already; and if files
      are left over, every peer has at least that much. */
  ghost predicate FillsPeers(result: Assignment, capabilities: map<PeerID, PeerCapabilities>,
                             load: map<PeerID, int>, leftOver: bool) {
    && result.Keys == capabilities.Keys
    && forall p :: p in capabilities ==>
         var busy := if p in load then load[p] else 0;
         && (result[p] != [] ==> busy + |result[p]| <= capabilities[p].maxConcurrentTransfers)
         && (leftOver ==> busy + |result[p]| >= capabilities[p].maxConcurrentTransfers)
  }

  /** `owners` gives each of the first files to one peer: as many files as there is capacity for, no
      peer more than it can take, and every peer's list in request order. */
  ghost predicate Assigns(result: Assignment, spare: map<PeerID, int>, files: seq<string>, owners: seq<PeerID>) {
    && result.Keys == spare.Keys
    && |owners| == (if |files| < TotalCapacity(spare) then |files| else TotalCapacity(spare))
    && (forall p :: p in owners ==> p in spare)
    && forall p :: p in result ==>
         result[p] == FilesOf(files, owners, p) && |result[p]| <= Positive(spare[p])
  }

  method PeerWithCapacity(remaining: map<PeerID, int>) returns (found: bool, peer: PeerID)
    ensures found <==> exists p :: p in remaining && remaining[p] > 0
    ensures found ==> peer in remaining && remaining[peer] > 0
  {
    var todo := remaining.Keys;
    while todo != {}
      invariant todo <= remaining.Keys
      invariant forall p :: p in remaining.Keys - todo ==> remaining[p] <= 0
    {
      var p := AnyOf(todo);
      if remaining[p] > 0 {
        return true, p;
      }
      todo := todo - {p};
    }
    return false, "";
  }

  /** What has been given out so far and what is left of every peer's capacity. */
  ghost predicate Given(result: Assignment, remaining: map<PeerID, int>, spare: map<PeerID, int>,
                        files: seq<string>, owners: seq<PeerID>)
    requires |owners| <= |files|
  {
    && remaining.Keys == spare.Keys == result.Keys
    && TotalCapacity(remaining) + |owners| == TotalCapacity(spare)
    && (forall p :: p in owners ==> p in spare)
    && forall p :: p in spare ==>
         && result[p] == FilesOf(files, owners, p)
         && remaining[p] == spare[p] - |result[p]| && |result[p]| <= Positive(spare[p])
  }

  lemma GiveOne(result: Assignment, remaining: map<PeerID, int>, spare: map<PeerID, int>,
                files: seq<string>, owners: seq<PeerID>, peer: PeerID)
    requires |owners| < |files| && Given(result, remaining, spare, files, owners)
    requires peer in remaining && remaining[peer] > 0
    ensures Given(result[peer := result[peer] + [files[|owners|]]], remaining[peer := remaining[peer] - 1],
                  spare, files, owners + [peer])
  {
    UsingOne(remaining, peer);
    assert (owners + [peer])[..|owners|] == owners;
  }

  lemma PeersAreFilled(result: Assignment, remaining: map<PeerID, int>, capabilities: map<PeerID, PeerCapabilities>,
                       load: map<PeerID, int>, files: seq<string>, owners: seq<PeerID>)
    requires |owners| <= |files| && Given(result, remaining, Spare(capabilities, load), files, owners)
    requires |owners| < |files| ==> TotalCapacity(remaining) == 0
    ensures FillsPeers(result, capabilities, load, |owners| < |files|)
  {
    NothingLeft(remaining);
    hide TotalCapacity, FilesOf;
  }

  method AssignFilesWithCapacity(capabilities: map<PeerID, PeerCapabilities>, load: map<PeerID, int>,
                                 files: seq<string>) returns (result: Assignment)
    ensures exists owners :: Assigns(result, Spare(capabilities, load), files, owners)
                             && FillsPeers(result, capabilities, load, |owners| < |files|)
  {
    result := map p | p in capabilities :: [];
    var remaining := Spare(capabilities, load);
    ghost var spare := remaining;
    ghost var total, owners: seq<PeerID> := TotalCapacity(spare), [];
    for i := 0 to |files|
      invariant |owners| == (if i < total then i else total)
      invariant Given(result, remaining, spare, files, owners)
    {
      var found, peer := PeerWithCapacity(remaining);
      NothingLeft(remaining);
      if found {
        GiveOne(result, remaining, spare, files, owners, peer);
        result := result[peer := result[peer] + [files[i]]];
        remaining := remaining[peer := remaining[peer] - 1];
        owners := owners + [peer];
      }
    }
    assert Assigns(result, spare, files, owners);
    PeersAreFilled(result, remaining, capabilities, load, files, owners);
    hide Assigns, FillsPeers;
    assert Assigns(result, spare, files, owners) && FillsPeers(result, capabilities, load, |owners| < |files|);
  }

  // ---- round robin ----

  method AssignFilesToPeers(peers: set<PeerID>, files: seq<string>) returns (result: Assignment)
    ensures peers == {} ==> result == map[]
    ensures peers != {} ==> exists order ::
              && NoDuplicates(order) && (forall p :: p in order <==> p in peers) && |order| > 0
              && forall p :: FilesOf(files, RoundRobin(order, |files|), p) == if p in result then result[p] else []
  {
    var order := ListPeers(peers);
    if |order| == 0 {
      assert forall p :: p !in peers;
      return map[];
    }
    result := TakeTurns(order, files);
    assert order[0] in peers;
  }

  method ListPeers(peers: set<PeerID>) returns (order: seq<PeerID>)
    ensures NoDuplicates(order) && forall p :: p in order <==> p in peers
  {
    order := [];
    var todo := peers;
    while todo != {}
      invariant todo <= peers && NoDuplicates(order) && forall p :: p in order <==> p in peers - todo
    {
      var p := AnyOf(todo);
      AppendNew(order, p);
      order, todo := order + [p], todo - {p};
    }
  }

  method TakeTurns(order: seq<PeerID>, files: seq<string>) returns (result: Assignment)
    requires |order| > 0
    ensures forall p :: FilesOf(files, RoundRobin(order, |files|), p) == if p in result then result[p] else []
  {
    result := map[];
    for i := 0 to |files|
      invariant forall p :: FilesOf(files, RoundRobin(order, i), p) == if p in result then result[p] else []
    {
      var p := order[i % |order|];
      assert RoundRobin(order, i + 1)[..i] == RoundRobin(order, i);
      result := result[p := (if p in result then result[p] else []) + [files[i]]];
    }
  }

  function RoundRobin(order: seq<PeerID>, n: nat): seq<PeerID>
    requires |order| > 0
  {
    seq(n, i requires i >= 0 => order[i % |order|])
  }

  /** Taking turns gives peer number `a` every `|order|`-th file, so that no two peers' shares differ
      by more than one file. */
  lemma {:induction false} SharesAreEven(files: seq<string>, order: seq<PeerID>, k: nat, a: nat)
    requires k <= |files| && a < |order| && NoDuplicates(order)
    ensures |FilesOf(files, RoundRobin(order, k), order[a])| == (k + |order| - 1 - a) / |order|
  {
    var n := |order|;
    if k > 0 {
      SharesAreEven(files, order, k - 1, a);
      assert RoundRobin(order, k)[..k - 1] == RoundRobin(order, k - 1);
      var b := (k - 1) % n;
      assert order[b] == order[a] <==> a == b;
      NextTurn(k - 1, n, a);
    } else {
      NextTurn(0, n, a);
    }
  }

  lemma Turns(k: nat, n: nat, a: nat, q: nat, r: nat)
    requires a < n && r < n && k == q * n + r
    ensures (k + n - 1 - a) / n == if r > a then q + 1 else q
  {
    Scale(q, q, n);
    if r > a {
      DivideBy(k + n - 1 - a, n, q + 1, r - 1 - a);
    } else {
      DivideBy(k + n - 1 - a, n, q, r + n - 1 - a);
    }
  }

  lemma NextTurn(k: nat, n: nat, a: nat)
    requires a < n
    ensures (k + 1 + n - 1 - a) / n == (k + n - 1 - a) / n + if k % n == a then 1 else 0
    ensures k == 0 ==> (k + n - 1 - a) / n == 0
  {
    var q, r := k / n, k % n;
    assert k == q * n + r;
    Turns(k, n, a, q, r);
    if a > 0 {
      Turns(k, n, a - 1, q, r);
    } else {
      Scale(q, q, n);
      DivideBy(k + n, n, q + 1, r);
    }
  }

  lemma DivideBy(x: nat, n: nat, q: nat, r: nat)
    requires n > 0 && x == q * n + r && r < n
    ensures x / n == q
  {
    var d := x / n;
    assert x == d * n + x % n;
    if d < q {
      Scale(d + 1, q, n);
    } else if d > q {
      Scale(q + 1, d, n);
    }
  }

  lemma SharesDifferByOne(files: seq<string>, order: seq<PeerID>, a: nat, b: nat)
    requires a < |order| && b < |order| && NoDuplicates(order)
    ensures var owners := RoundRobin(order, |files|);
            |FilesOf(files, owners, order[a])| <= |FilesOf(files, owners, order[b])| + 1
  {
    SharesAreEven(files, order, |files|, a);
    SharesAreEven(files, order, |files|, b);
    QuotientsAreClose(|files| + |order| - 1 - a, |files| + |order| - 1 - b, |order|);
  }

  lemma QuotientsAreClose(x: nat, y: nat, n: nat)
    requires n > 0 && x < y + n
    ensures x / n <= y / n + 1
  {
    var d, e := x / n, y / n;
    assert x == d * n + x % n && y == e * n + y % n;
    if d > e + 1 {
      Scale(e + 2, d, n);
      Scale(e + 1, e + 1, n);
    }
  }
}
