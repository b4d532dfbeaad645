/** Vector clocks: the map a peer updates in place, the order that `Compare` decides,
    and the join that `Merge` computes. */
module VectorClocks {
  type PeerID = string

  const MAX_INT64 := 0x7fff_ffff_ffff_ffff
  const MIN_INT64 := -0x8000_0000_0000_0000

  /** Counters are 64-bit signed integers. */
  type int64 = x: int | MIN_INT64 <= x <= MAX_INT64

  type Clock = map<PeerID, int64>

  /** An absent entry reads as 0. */
  function Get(vc: Clock, p: PeerID): int64 {
    if p in vc then vc[p] else 0
  }

  /** Adding one wraps around at the top of the 64-bit range. */
  function Next(v: int64): int64 {
    if v == MAX_INT64 then MIN_INT64 else v + 1
  }

  function Tick(vc: Clock, p: PeerID): Clock {
    vc[p := Next(Get(vc, p))]
  }

  /** What an in-place merge leaves: a key of `b` is added only when its counter is positive. */
  function JoinClocks(a: Clock, b: Clock): Clock {
    map p | p in a.Keys + b.Keys && (p in a || 0 < b[p]) ::
      if p in b && Get(a, p) < b[p] then b[p] else a[p]
  }

  /** Visiting one more entry of the incoming clock. */
  lemma JoinOneMore(a: Clock, b: Clock, todo: set<PeerID>, p: PeerID)
    requires todo <= b.Keys && p in todo
    ensures var was, now := JoinClocks(a, b - todo), JoinClocks(a, b - (todo - {p}));
            now == if Get(was, p) < b[p] then was[p := b[p]] else was
  {
    var was, now := JoinClocks(a, b - todo), JoinClocks(a, b - (todo - {p}));
    assert Get(was, p) == Get(a, p) && (p in was <==> p in a);
    forall q | q != p
      ensures (q in now <==> q in was) && (q in was ==> now[q] == was[q])
    {
    }
  }

  /** The pointwise order on clocks, over every peer there could be. */
  ghost predicate Leq(a: Clock, b: Clock) {
    forall p :: Get(a, p) <= Get(b, p)
  }

  /** -1, 1 or 0: strictly below, strictly above, or neither. */
  ghost function Order(a: Clock, b: Clock): int {
    if Leq(a, b) && !Leq(b, a) then -1
    else if Leq(b, a) && !Leq(a, b) then 1
    else 0
  }

  class VectorClock {
    var entries: Clock

    constructor ()
      ensures entries == map[]
    {
      entries := map[];
    }

    method Increment(peerID: PeerID)
      modifies this
      ensures entries == Tick(old(entries), peerID)
    {
      entries := entries[peerID := Next(Get(entries, peerID))];
    }

    /** The keys of `other` are visited in an arbitrary order. */
    method Merge(other: Clock)
      modifies this
      ensures entries == JoinClocks(old(entries), other)
    {
      var todo := other.Keys;
      while todo != {}
        invariant todo <= other.Keys
        invariant entries == JoinClocks(old(entries), other - todo)
      {
        var p :| p in todo;
        JoinOneMore(old(entries), other, todo, p);
        if Get(entries, p) < other[p] {
          entries := entries[p := other[p]];
        }
        todo := todo - {p};
      }
      assert other - todo == other;
    }

    method Compare(other: Clock) returns (r: int)
      ensures r == Order(entries, other)
    {
      var less, greater := false, false;
      var todo := entries.Keys + other.Keys;
      while todo != {}
        invariant todo <= entries.Keys + other.Keys
        invariant less <==>
                  exists p :: p in entries.Keys + other.Keys - todo && Get(entries, p) < Get(other, p)
        invariant greater <==>
                  exists p :: p in entries.Keys + other.Keys - todo && Get(entries, p) > Get(other, p)
      {
        var p :| p in todo;
        var v1, v2 := Get(entries, p), Get(other, p);
        if v1 < v2 {
          less := true;
        } else if v1 > v2 {
          greater := true;
        }
        todo := todo - {p};
      }
      LeqOnKeys(entries, other);
      LeqOnKeys(other, entries);
      if less && !greater {
        return -1;
      } else if greater && !less {
        return 1;
      }
      return 0;
    }

    method IsConcurrent(other: Clock) returns (b: bool)
      ensures b <==> Leq(entries, other) == Leq(other, entries)
    {
      var c := Compare(other);
      b := c == 0;
    }
  }

  /** Looking only at the keys present in either clock decides the order over all peers. */
  lemma LeqOnKeys(a: Clock, b: Clock)
    ensures Leq(a, b) <==> forall p :: p in a.Keys + b.Keys ==> Get(a, p) <= Get(b, p)
  {
    if forall p :: p in a.Keys + b.Keys ==> Get(a, p) <= Get(b, p) {
      forall p
        ensures Get(a, p) <= Get(b, p)
      {
        if p !in a.Keys + b.Keys {
          assert Get(a, p) == 0 == Get(b, p);
        }
      }
    }
  }

  /** `Merge` yields a least upper bound; it is an upper bound of the incoming clock exactly
      when no counter missing from the incoming clock is negative locally. */
  lemma JoinIsLeastUpperBound(a: Clock, b: Clock)
    ensures Leq(a, JoinClocks(a, b))
    ensures Leq(b, JoinClocks(a, b)) <==> forall p :: p in a && p !in b ==> 0 <= a[p]
    ensures forall c :: Leq(a, c) && Leq(b, c) ==> Leq(JoinClocks(a, b), c)
  {
    forall c, p | Leq(a, c) && Leq(b, c)
      ensures Get(JoinClocks(a, b), p) <= Get(c, p)
    {
      assert Get(a, p) <= Get(c, p) && Get(b, p) <= Get(c, p);
    }
    if p :| p in a && p !in b && a[p] < 0 {
      assert Get(b, p) > Get(JoinClocks(a, b), p);
    }
  }

  /** A counter below 0, which an overflow may leave, stays below the absent counter it is merged with. */
  lemma NegativeCounterIsNotRaised(p: PeerID)
    ensures var a, b: Clock := map[p := -1], map[]; !Leq(b, JoinClocks(a, b))
  {
    var a, b: Clock := map[p := -1], map[];
    assert p in a && p !in b && a[p] < 0;
    JoinIsLeastUpperBound(a, b);
  }

  /** Strict comparison flips under swapping its arguments, never relates a clock to itself,
      and is transitive. */
  lemma OrderIsStrict(a: Clock, b: Clock, c: Clock)
    ensures Order(b, a) == -Order(a, b)
    ensures Order(a, a) == 0
    ensures Order(a, b) == -1 && Order(b, c) == -1 ==> Order(a, c) == -1
  {
    if Order(a, b) == -1 && Order(b, c) == -1 {
      assert Leq(a, c);
      var p :| Get(b, p) > Get(a, p);
      assert Get(c, p) > Get(a, p);
    }
  }
}

/** The clock that a state declaration announces: a fold of `Merge` over logged operations. */
module Declaration {
  import opened VectorClocks

  function FoldClocks(clocks: seq<Clock>): Clock {
    if clocks == [] then map[] else JoinClocks(FoldClocks(clocks[..|clocks| - 1]), clocks[|clocks| - 1])
  }

  method BuildClock(operations: seq<Clock>) returns (vc: VectorClock)
    ensures fresh(vc)
    ensures vc.entries == FoldClocks(operations)
  {
    vc := new VectorClock();
    for i := 0 to |operations|
      invariant vc.entries == FoldClocks(operations[..i])
    {
      assert operations[..i + 1][..i] == operations[..i];
      vc.Merge(operations[i]);
    }
    assert operations[..|operations|] == operations;
  }

  /** An entry is present exactly when some operation counted that peer, and it is then the
      greatest counter any operation carries. */
  lemma {:induction false} FoldIsPointwiseMaximum(clocks: seq<Clock>, p: PeerID)
    ensures p in FoldClocks(clocks) <==> exists c :: c in clocks && 0 < Get(c, p)
    ensures p in FoldClocks(clocks) ==> exists c :: c in clocks && Get(c, p) == FoldClocks(clocks)[p]
    ensures forall c :: c in clocks && p in FoldClocks(clocks) ==> Get(c, p) <= FoldClocks(clocks)[p]
  {
    if clocks != [] {
      var init, last := clocks[..|clocks| - 1], clocks[|clocks| - 1];
      assert clocks == init + [last];
      assert forall c :: c in clocks <==> c in init || c == last;
      FoldIsPointwiseMaximum(init, p);
      var folded := FoldClocks(clocks);
      if p in FoldClocks(init) {
        var c :| c in init && 0 < Get(c, p);
        assert c in clocks;
        var top :| top in init && Get(top, p) == FoldClocks(init)[p];
        assert Get(if folded[p] == Get(last, p) then last else top, p) == folded[p];
      } else {
        assert p in folded ==> last in clocks && Get(last, p) == folded[p];
        assert 0 < Get(last, p) ==> p in folded;
      }
    }
  }

  /** The announced clock depends neither on the order of the operations nor on repetitions. */
  lemma FoldIgnoresOrderAndRepetition(s: seq<Clock>, t: seq<Clock>)
    requires forall c :: c in s <==> c in t
    ensures FoldClocks(s) == FoldClocks(t)
  {
    forall p
      ensures p in FoldClocks(s) <==> p in FoldClocks(t)
      ensures p in FoldClocks(s) ==> FoldClocks(s)[p] == FoldClocks(t)[p]
    {
      FoldIsPointwiseMaximum(s, p);
      FoldIsPointwiseMaximum(t, p);
    }
  }
}
