/** The token bucket that limits bandwidth. Time is in nanoseconds, the rate in bytes per second, and
    the product of the two is exact before it is cut down to whole bytes. A request may be negative;
    it is then granted and credited. */
module RateLimiting {
  import opened Arithmetic

  const SECOND := 1_000_000_000

  datatype Bucket = Bucket(rate: int, burst: int, tokens: int, lastRefill: int)

  /** Conversion to an integer truncates towards zero. */
  function TokensFor(rate: int, elapsed: int): int {
    if rate * elapsed >= 0 then rate * elapsed / SECOND else -(-(rate * elapsed) / SECOND)
  }

  /** A refill that earns less than one byte leaves the bucket, and the time it counts from, alone. */
  function Refilled(b: Bucket, now: int): Bucket {
    var earned := TokensFor(b.rate, now - b.lastRefill);
    if earned > 0 then
      b.(tokens := if b.tokens + earned > b.burst then b.burst else b.tokens + earned, lastRefill := now)
    else b
  }

  datatype Event =
    | Consume(now: int, n: int)
    | Tick(now: int)
    | SetRate(rate: int)

  function Grants(b: Bucket, e: Event): bool {
    e.Consume? && Refilled(b, e.now).tokens >= e.n
  }

  function Step(b: Bucket, e: Event): Bucket {
    match e
    case Consume(now, n) =>
      var r := Refilled(b, now);
      if r.tokens >= n then r.(tokens := r.tokens - n) else r
    case Tick(now) => Refilled(b, now)
    case SetRate(rate) => b.(rate := rate)
  }

  class RateLimiter {
    var rate: int
    var burst: int
    var tokens: int
    var lastRefill: int

    function Value(): Bucket
      reads this
    {
      Bucket(rate, burst, tokens, lastRefill)
    }

    /** The bucket starts full. */
    constructor (rate: int, burst: int, now: int)
      ensures Value() == Bucket(rate, burst, burst, now)
    {
      this.rate, this.burst, tokens, lastRefill := rate, burst, burst, now;
    }

    method TryConsume(now: int, n: int) returns (ok: bool)
      modifies this
      ensures Value() == Step(old(Value()), Consume(now, n))
      ensures ok == Grants(old(Value()), Consume(now, n))
    {
      Refill(now);
      if tokens >= n {
        tokens := tokens - n;
        return true;
      }
      return false;
    }

    /** One tick of the background refill, and the first half of every attempt to consume. */
    method Refill(now: int)
      modifies this
      ensures Value() == Step(old(Value()), Tick(now))
    {
      var tokensToAdd := TokensFor(rate, now - lastRefill);
      if tokensToAdd > 0 {
        tokens := tokens + tokensToAdd;
        if tokens > burst {
          tokens := burst;
        }
        lastRefill := now;
      }
    }

    method ChangeRate(rate: int)
      modifies this
      ensures Value() == Step(old(Value()), SetRate(rate))
    {
      this.rate := rate;
    }

    /** Polls until the request is granted or, after the last poll, the context is done. With a
        positive rate, a request that fits the bucket is granted once twice its worth has been earned. */
    method Wait(n: int, polls: seq<int>) returns (ok: bool, polled: nat)
      requires Timely(lastRefill, Polls(polls, n))
      modifies this
      ensures polled <= |polls| && Value() == Play(old(Value()), Polls(polls, n)[..polled]).0
      ensures if ok then polled > 0 && AttemptIsGranted(old(Value()), Polls(polls, n), polled - 1)
              else polled == |polls|
      ensures Refusals(old(Value()), Polls(polls, n), if ok then polled - 1 else polled)
      ensures Sane(old(Value())) && n > old(burst) ==> !ok
      ensures (Sane(old(Value())) && polls != [] && old(rate) > 0 && n <= old(burst)
               && old(rate) * (polls[|polls| - 1] - old(lastRefill)) >= (2 * n + 1) * SECOND) ==> ok
    {
      ghost var start, all := Value(), Polls(polls, n);
      for i := 0 to |polls|
        invariant Play(start, all[..i]).0 == Value() && Refusals(start, all, i)
      {
        NextPoll(start, polls, n, i);
        var granted := TryConsume(polls[i], n);
        if granted {
          WaitPaysOff(start, polls, n, true, i + 1);
          return true, i + 1;
        }
      }
      WaitPaysOff(start, polls, n, false, |polls|);
      return false, |polls|;
    }
  }

  function Polls(polls: seq<int>, n: int): seq<Event> {
    seq(|polls|, i requires 0 <= i < |polls| => Consume(polls[i], n))
  }

  // ---- runs ----

  /** The bucket after a run, and the bytes admitted during it. */
  function Play(b: Bucket, events: seq<Event>): (Bucket, int) {
    if events == [] then (b, 0)
    else
      var (was, admitted) := Play(b, events[..|events| - 1]);
      var e := events[|events| - 1];
      (Step(was, e), admitted + if Grants(was, e) then e.n else 0)
  }

  /** The time of the last event that has one. */
  function EndTime(start: int, events: seq<Event>): int {
    if events == [] then start
    else
      var e := events[|events| - 1];
      if e.SetRate? then EndTime(start, events[..|events| - 1]) else e.now
  }

  /** Time never goes backwards. */
  ghost predicate Timely(start: int, events: seq<Event>) {
    events == [] ||
    (var init, e := events[..|events| - 1], events[|events| - 1];
     Timely(start, init) && (!e.SetRate? ==> e.now >= EndTime(start, init)))
  }

  lemma {:induction false} TimelyPrefix(start: int, events: seq<Event>, k: nat)
    requires k <= |events| && Timely(start, events)
    ensures Timely(start, events[..k])
  {
    if k < |events| {
      TimelyPrefix(start, events[..|events| - 1], k);
      assert events[..|events| - 1][..k] == events[..k];
    } else {
      assert events[..k] == events;
    }
  }

  ghost predicate Solvent(b: Bucket) {
    0 <= b.tokens && 0 <= b.burst
  }

  ghost predicate Sane(b: Bucket) {
    0 <= b.tokens <= b.burst
  }

  /** A step leaves the bounds exactly when it grants a negative request that overfills the bucket. */
  lemma StepKeepsBounds(b: Bucket, e: Event)
    requires Solvent(b)
    ensures Solvent(Step(b, e)) && Step(b, e).burst == b.burst
    ensures Sane(b) ==> (Sane(Step(b, e)) <==> (Grants(b, e) ==> Refilled(b, e.now).tokens - e.n <= b.burst))
  {
  }

  ghost predicate CountsBytes(events: seq<Event>) {
    forall e :: e in events && e.Consume? ==> e.n >= 0
  }

  /** In every reachable state there are no tokens missing; and unless requests are negative no more
      than the burst are there, so that a request larger than the burst is never granted. */
  lemma {:induction false} TokensStayInBounds(b: Bucket, events: seq<Event>)
    requires Sane(b)
    ensures var c := Play(b, events).0;
            && Solvent(c) && c.burst == b.burst
            && (CountsBytes(events) ==>
                  Sane(c) && forall e :: e in events && e.Consume? && e.n > b.burst ==> !Grants(c, e))
  {
    if events != [] {
      var init := events[..|events| - 1];
      TokensStayInBounds(b, init);
      StepKeepsBounds(Play(b, init).0, events[|events| - 1]);
      assert CountsBytes(events) ==> CountsBytes(init);
    }
  }

  /** A full bucket that grants a negative request holds more than its burst, and grants that too. */
  lemma NegativeRequestOverfills(rate: int, burst: nat, now: int)
    ensures var c := Step(Bucket(rate, burst, burst, now), Consume(now, -1));
            c.tokens == burst + 1 && Grants(c, Consume(now, burst + 1))
  {
  }

  /** No rate in force during the run exceeds `top`. */
  ghost predicate RatesAtMost(top: int, b: Bucket, events: seq<Event>) {
    b.rate <= top && forall e :: e in events && e.SetRate? ==> e.rate <= top
  }

  /** What a refill earns is paid for by the time it moves `lastRefill` forward. */
  lemma RefillIsPaidFor(b: Bucket, now: int, top: nat)
    requires b.rate <= top && b.lastRefill <= now
    ensures var r := Refilled(b, now);
            && b.lastRefill <= r.lastRefill <= now
            && (r.tokens - b.tokens) * SECOND <= top * (r.lastRefill - b.lastRefill)
  {
    Scale(b.rate, top, now - b.lastRefill);
  }

  /** Tokens spent plus tokens left never exceed those at the start plus those earned since: summing
      the rounded-down refills of both paths loses nothing and counts no time twice. */
  lemma {:induction false} BytesArePaidFor(b: Bucket, start: int, events: seq<Event>, top: nat)
    requires Solvent(b) && b.lastRefill <= start && Timely(start, events) && RatesAtMost(top, b, events)
    ensures var (c, admitted) := Play(b, events);
            && c.rate <= top && Solvent(c) && c.burst == b.burst
            && b.lastRefill <= c.lastRefill <= EndTime(start, events) && start <= EndTime(start, events)
            && (admitted + c.tokens - b.tokens) * SECOND <= top * (c.lastRefill - b.lastRefill)
  {
    if events != [] {
      var init, e := events[..|events| - 1], events[|events| - 1];
      BytesArePaidFor(b, start, init, top);
      var c := Play(b, init).0;
      StepKeepsBounds(c, e);
      if !e.SetRate? {
        RefillIsPaidFor(c, e.now, top);
        EarnedInHalves(top, b.lastRefill, c.lastRefill, Refilled(c, e.now).lastRefill);
      }
    }
  }

  /** Since its creation a limiter has admitted at most a full burst plus what the largest rate ever
      set earns in the time that has passed. */
  lemma AdmittedSinceCreation(rate: int, burst: nat, created: int, events: seq<Event>, top: nat)
    requires var b := Bucket(rate, burst, burst, created); Timely(created, events) && RatesAtMost(top, b, events)
    ensures var admitted := Play(Bucket(rate, burst, burst, created), events).1;
            admitted * SECOND <= burst * SECOND + top * (EndTime(created, events) - created)
  {
    var b := Bucket(rate, burst, burst, created);
    BytesArePaidFor(b, created, events, top);
    var c := Play(b, events).0;
    EarnedInHalves(top, created, c.lastRefill, EndTime(created, events));
    Scale(0, top, EndTime(created, events) - c.lastRefill);
  }

  // ---- windows ----

  /** The state right after a call at time `start`: less than one byte is still uncredited. */
  ghost predicate Settled(b: Bucket, start: int) {
    Solvent(b) && b.lastRefill <= start && TokensFor(b.rate, start - b.lastRefill) <= 0
  }

  lemma CallsSettle(b: Bucket, e: Event)
    requires Solvent(b) && !e.SetRate? && b.lastRefill <= e.now
    ensures Settled(Step(b, e), e.now)
  {
  }

  /** In every window that opens in this state, at rates up to `top`, the bytes admitted stay below
      the burst plus what `top` earns during the window plus one byte. */
  ghost predicate WindowsBounded(b: Bucket, start: int, top: nat) {
    forall events :: Timely(start, events) && RatesAtMost(top, b, events) ==> InWindow(b, start, top, events)
  }

  ghost predicate InWindow(b: Bucket, start: int, top: nat, events: seq<Event>) {
    Play(b, events).1 * SECOND < (b.burst + 1) * SECOND + top * (EndTime(start, events) - start)
  }

  /** Bytes that the time before the window would earn at rate `top`. */
  function CarriedOver(b: Bucket, start: int, top: nat): int {
    TokensFor(top, start - b.lastRefill)
  }

  lemma {:induction false} WindowWithTokensLeft(b: Bucket, start: int, top: nat, events: seq<Event>)
    requires Settled(b, start) && Timely(start, events) && RatesAtMost(top, b, events)
    requires b.tokens + CarriedOver(b, start, top) <= b.burst
    ensures InWindow(b, start, top, events)
  {
    BytesArePaidFor(b, start, events, top);
    var c, end := Play(b, events).0, EndTime(start, events);
    EarnedInHalves(top, b.lastRefill, start, end);
    EarnedInHalves(top, b.lastRefill, c.lastRefill, end);
    Scale(0, top, end - c.lastRefill);
    Scale(0, top, start - b.lastRefill);
  }

  /** An empty bucket admits nothing on balance before its first refill in the window, which fills it
      at most. */
  ghost predicate FilledSince(start: int, lastRefill: int, burst: int, top: nat, c: Bucket, admitted: int, end: int) {
    && Solvent(c) && c.burst == burst && c.rate <= top && c.lastRefill <= end && start <= end
    && ((c.lastRefill == lastRefill && admitted + c.tokens == 0)
        || (start <= c.lastRefill && (admitted + c.tokens - burst) * SECOND <= top * (c.lastRefill - start)))
  }

  lemma FilledSinceStep(start: int, lastRefill: int, top: nat, c: Bucket, admitted: int, end: int, e: Event)
    requires FilledSince(start, lastRefill, c.burst, top, c, admitted, end)
    requires if e.SetRate? then e.rate <= top else e.now >= end
    ensures FilledSince(start, lastRefill, c.burst, top, Step(c, e), admitted + if Grants(c, e) then e.n else 0,
                        if e.SetRate? then end else e.now)
  {
    StepKeepsBounds(c, e);
    if !e.SetRate? {
      RefillIsPaidFor(c, e.now, top);
      var r := Refilled(c, e.now);
      EarnedInHalves(top, start, c.lastRefill, r.lastRefill);
      if r.lastRefill >= start {
        Scale(0, top, r.lastRefill - start);
      }
    }
  }

  lemma {:induction false} WindowFromEmpty(b: Bucket, start: int, top: nat, events: seq<Event>)
    requires Settled(b, start) && b.tokens == 0 && Timely(start, events) && RatesAtMost(top, b, events)
    ensures var (c, admitted) := Play(b, events);
            FilledSince(start, b.lastRefill, b.burst, top, c, admitted, EndTime(start, events))
  {
    if events != [] {
      var init, e := events[..|events| - 1], events[|events| - 1];
      WindowFromEmpty(b, start, top, init);
      var (c, admitted) := Play(b, init);
      FilledSinceStep(start, b.lastRefill, top, c, admitted, EndTime(start, init), e);
    }
  }

  /** The run that breaks the bound: take what is there, raise the rate, and take what the time before
      the window now earns. */
  lemma RaisedRateBreaksWindow(b: Bucket, start: int, top: nat) returns (events: seq<Event>)
    requires Settled(b, start) && b.rate <= top
    requires b.tokens > 0 && b.tokens + CarriedOver(b, start, top) > b.burst
    ensures Timely(start, events) && RatesAtMost(top, b, events) && !InWindow(b, start, top, events)
  {
    var e1, e2, e3 := Consume(start, b.tokens), SetRate(top), Consume(start, b.burst + 1 - b.tokens);
    events := [e1, e2, e3];
    assert events[..2] == [e1, e2] && [e1, e2][..1] == [e1] && [e1][..0] == [];
    assert Timely(start, []) && Timely(start, [e1]) && Timely(start, [e1, e2]);
    assert EndTime(start, [e1]) == start && EndTime(start, [e1, e2]) == start && EndTime(start, events) == start;
    var b1 := b.(tokens := 0);
    assert Play(b, []) == (b, 0);
    assert Play(b, [e1]) == (b1, b.tokens);
    assert Play(b, [e1, e2]) == (b1.(rate := top), b.tokens);
    assert Grants(b1.(rate := top), e3);
    assert Play(b, events).1 == b.burst + 1;
  }

  /** The window bound holds exactly when the bucket is empty at the start or the time before the
      window, at the highest rate to come, would not overfill it. */
  lemma WindowBoundExactly(b: Bucket, start: int, top: nat)
    requires Settled(b, start) && b.rate <= top
    ensures WindowsBounded(b, start, top) <==> b.tokens == 0 || b.tokens + CarriedOver(b, start, top) <= b.burst
    ensures Sane(b) && b.rate == top ==> WindowsBounded(b, start, top)
  {
    if b.tokens == 0 || b.tokens + CarriedOver(b, start, top) <= b.burst {
      forall events | Timely(start, events) && RatesAtMost(top, b, events)
        ensures InWindow(b, start, top, events)
      {
        if b.tokens == 0 {
          WindowFromEmpty(b, start, top, events);
          var c := Play(b, events).0;
          EarnedInHalves(top, start, c.lastRefill, EndTime(start, events));
          Scale(0, top, EndTime(start, events) - c.lastRefill);
          Scale(0, top, EndTime(start, events) - start);
        } else {
          WindowWithTokensLeft(b, start, top, events);
        }
      }
    } else {
      var events := RaisedRateBreaksWindow(b, start, top);
      assert !InWindow(b, start, top, events);
    }
  }

  lemma {:induction false} RefillsAreInThePast(b: Bucket, start: int, events: seq<Event>)
    requires b.lastRefill <= start && Timely(start, events)
    ensures Play(b, events).0.lastRefill <= EndTime(start, events)
  {
    if events != [] {
      RefillsAreInThePast(b, start, events[..|events| - 1]);
    }
  }

  /** Every state that a limiter can be in right after a call opens only bounded windows as long as the
      rate is not raised; if it may be raised to `top`, the condition above decides. */
  lemma WindowsAfterCalls(b: Bucket, events: seq<Event>, e: Event, top: nat)
    requires Sane(b) && Timely(b.lastRefill, events + [e]) && CountsBytes(events + [e]) && !e.SetRate?
    requires Play(b, events + [e]).0.rate <= top
    ensures var c := Play(b, events + [e]).0;
            && (WindowsBounded(c, e.now, top) <==> c.tokens == 0 || c.tokens + CarriedOver(c, e.now, top) <= c.burst)
            && (c.rate == top ==> WindowsBounded(c, e.now, top))
  {
    var all := events + [e];
    assert all[..|events|] == events;
    RefillsAreInThePast(b, b.lastRefill, events);
    TokensStayInBounds(b, events);
    CallsSettle(Play(b, events).0, e);
    TokensStayInBounds(b, all);
    WindowBoundExactly(Play(b, all).0, e.now, top);
  }

  /** A bucket of 10 bytes, filled at one byte a second, is full and half a byte is uncredited. If the
      rate is then raised to 100 bytes a second, that half second pays for 50 bytes at once. */
  lemma RaisingTheRateBreaksTheBound(b: Bucket, now: int)
    requires b == Bucket(1, 10, 10, 0) && now == SECOND / 2
    ensures Step(b, Tick(now)) == b && Settled(b, now)
    ensures !WindowsBounded(b, now, 100)
  {
    assert CarriedOver(b, now, 100) == 50;
    WindowBoundExactly(b, now, 100);
  }

  // ---- progress ----

  /** A refill that counts credits all the room that is left, or at least half of what the elapsed
      time is worth. */
  lemma RefillCreditsHalf(b: Bucket, now: int)
    requires Sane(b) && b.rate > 0 && b.lastRefill <= now && Refilled(b, now) != b
    ensures var r := Refilled(b, now);
            r.tokens == b.burst || 2 * (r.tokens - b.tokens) * SECOND >= b.rate * (now - b.lastRefill)
  {
  }

  /** The bucket is full or holds half of what the time since `since` is worth. */
  ghost predicate KeepsHalf(c: Bucket, rate: int, since: int) {
    && Sane(c) && c.rate == rate && since <= c.lastRefill
    && (c.tokens == c.burst || 2 * c.tokens * SECOND >= rate * (c.lastRefill - since))
  }

  lemma RefillKeepsHalf(c: Bucket, now: int, rate: int, since: int)
    requires rate > 0 && KeepsHalf(c, rate, since) && c.lastRefill <= now
    ensures KeepsHalf(Refilled(c, now), rate, since)
  {
    EarnedInHalves(rate, since, c.lastRefill, now);
    StepKeepsBounds(c, Tick(now));
    if Refilled(c, now) != c {
      RefillCreditsHalf(c, now);
    }
  }

  ghost predicate AttemptIsGranted(b: Bucket, events: seq<Event>, k: nat) {
    k < |events| && Grants(Play(b, events[..k]).0, events[k])
  }

  /** None of the first `k` requests is granted. */
  ghost predicate Refusals(b: Bucket, events: seq<Event>, k: nat) {
    forall i: nat :: i < k ==> !AttemptIsGranted(b, events, i)
  }

  /** No request takes anything out of the bucket or puts anything into it. */
  ghost predicate TakesNothing(b: Bucket, events: seq<Event>) {
    events == [] ||
    (var init, e := events[..|events| - 1], events[|events| - 1];
     TakesNothing(b, init) && (Grants(Play(b, init).0, e) ==> e.n == 0))
  }

  lemma {:induction false} RefusalsTakeNothing(b: Bucket, events: seq<Event>, k: nat)
    requires k <= |events| && Refusals(b, events, k)
    ensures TakesNothing(b, events[..k])
  {
    assert events[..0] == [];
    if k > 0 {
      RefusalsTakeNothing(b, events, k - 1);
      assert !AttemptIsGranted(b, events, k - 1);
      assert events[..k][..k - 1] == events[..k - 1];
    }
  }

  /** As long as nothing is taken at a fixed rate, the bucket is full or has kept half of what the
      time is worth. */
  lemma {:induction false} HalfIsKept(b: Bucket, events: seq<Event>)
    requires Sane(b) && b.rate > 0 && Timely(b.lastRefill, events) && TakesNothing(b, events)
    requires forall e :: e in events ==> !e.SetRate?
    ensures var c := Play(b, events).0;
            KeepsHalf(c, b.rate, b.lastRefill) && c.burst == b.burst && c.lastRefill <= EndTime(b.lastRefill, events)
  {
    if events != [] {
      var init, e := events[..|events| - 1], events[|events| - 1];
      HalfIsKept(b, init);
      RefillKeepsHalf(Play(b, init).0, e.now, b.rate, b.lastRefill);
    }
  }

  lemma {:induction false} StaysSane(b: Bucket, events: seq<Event>)
    requires Sane(b) && TakesNothing(b, events)
    ensures Sane(Play(b, events).0) && Play(b, events).0.burst == b.burst
  {
    if events != [] {
      StaysSane(b, events[..|events| - 1]);
      StepKeepsBounds(Play(b, events[..|events| - 1]).0, events[|events| - 1]);
    }
  }

  /** A request that fits the bucket is granted at the first poll after the time waited is worth twice
      the request and one byte more. */
  lemma PatiencePays(b: Bucket, events: seq<Event>, now: int, n: int)
    requires Sane(b) && b.rate > 0 && Timely(b.lastRefill, events) && TakesNothing(b, events)
    requires forall e :: e in events ==> !e.SetRate?
    requires now >= EndTime(b.lastRefill, events) && n <= b.burst
    requires b.rate * (now - b.lastRefill) >= (2 * n + 1) * SECOND
    ensures Grants(Play(b, events).0, Consume(now, n))
  {
    hide Play, Timely, TakesNothing, EndTime;
    HalfIsKept(b, events);
    var c := Play(b, events).0;
    var r := Refilled(c, now);
    RefillKeepsHalf(c, now, b.rate, b.lastRefill);
    EarnedInHalves(b.rate, b.lastRefill, r.lastRefill, now);
  }

  /** After refusals only, a poll is refused if the request does not fit the bucket and granted if it
      does and enough has been earned. */
  lemma PollsPayOff(b: Bucket, polls: seq<int>, n: int, i: nat)
    requires Sane(b) && Timely(b.lastRefill, Polls(polls, n))
    requires i < |polls| && Refusals(b, Polls(polls, n), i)
    ensures n > b.burst ==> !AttemptIsGranted(b, Polls(polls, n), i)
    ensures b.rate > 0 && n <= b.burst && b.rate * (polls[i] - b.lastRefill) >= (2 * n + 1) * SECOND ==>
              AttemptIsGranted(b, Polls(polls, n), i)
  {
    var all := Polls(polls, n);
    RefusalsTakeNothing(b, all, i);
    StaysSane(b, all[..i]);
    StepKeepsBounds(Play(b, all[..i]).0, Tick(polls[i]));
    if b.rate > 0 && n <= b.burst && b.rate * (polls[i] - b.lastRefill) >= (2 * n + 1) * SECOND {
      TimelyPrefix(b.lastRefill, all, i + 1);
      assert all[..i + 1][..i] == all[..i];
      PatiencePays(b, all[..i], polls[i], n);
    }
  }

  lemma NextPoll(b: Bucket, polls: seq<int>, n: int, i: nat)
    requires i < |polls|
    ensures var all, was := Polls(polls, n), Play(b, Polls(polls, n)[..i]).0;
            && Play(b, all[..i + 1]).0 == Step(was, Consume(polls[i], n))
            && (AttemptIsGranted(b, all, i) <==> Grants(was, Consume(polls[i], n)))
            && (Refusals(b, all, i) && !AttemptIsGranted(b, all, i) ==> Refusals(b, all, i + 1))
  {
    var all := Polls(polls, n);
    assert all[..i + 1][..i] == all[..i];
  }

  /** What polling until the first success amounts to. */
  lemma WaitPaysOff(b: Bucket, polls: seq<int>, n: int, ok: bool, polled: nat)
    requires Timely(b.lastRefill, Polls(polls, n)) && polled <= |polls|
    requires if ok then polled > 0 && AttemptIsGranted(b, Polls(polls, n), polled - 1) else polled == |polls|
    requires Refusals(b, Polls(polls, n), if ok then polled - 1 else polled)
    ensures Sane(b) && n > b.burst ==> !ok
    ensures (Sane(b) && polls != [] && b.rate > 0 && n <= b.burst
             && b.rate * (polls[|polls| - 1] - b.lastRefill) >= (2 * n + 1) * SECOND) ==> ok
  {
    if Sane(b) && polled > 0 {
      PollsPayOff(b, polls, n, polled - 1);
    }
  }

  // ---- changing the rate ----

  lemma RateIsChanged(b: Bucket, events: seq<Event>, rate: int)
    requires Sane(b) && Timely(b.lastRefill, events) && CountsBytes(events)
    ensures var c := Play(b, events + [SetRate(rate)]).0;
            Sane(c) && c.rate == rate && c.burst == b.burst && c.lastRefill <= EndTime(b.lastRefill, events)
  {
    assert (events + [SetRate(rate)])[..|events|] == events;
    TokensStayInBounds(b, events);
    RefillsAreInThePast(b, b.lastRefill, events);
  }

  /** A new rate limits at once, whatever the rates were before: until the next change, at most the tokens
      that are there and what the new rate earns since the last refill are admitted. */
  lemma NewRateLimits(b: Bucket, events: seq<Event>, rate: nat, more: seq<Event>)
    requires Sane(b) && Timely(b.lastRefill, events) && CountsBytes(events)
    requires Timely(EndTime(b.lastRefill, events), more) && forall e :: e in more ==> !e.SetRate?
    ensures var c := Play(b, events + [SetRate(rate)]).0;
            var end := EndTime(EndTime(b.lastRefill, events), more);
            Play(c, more).1 * SECOND <= c.tokens * SECOND + rate * (end - c.lastRefill)
  {
    RateIsChanged(b, events, rate);
    hide Play, EndTime, Timely;
    AdmittedAtRate(Play(b, events + [SetRate(rate)]).0, EndTime(b.lastRefill, events), more, rate);
  }

  /** And it pays at once: after refusals only, a request that fits is granted as soon as the new rate has
      earned twice as much and a byte. */
  lemma NewRatePays(b: Bucket, events: seq<Event>, rate: nat, polls: seq<int>, n: int, i: nat)
    requires Sane(b) && Timely(b.lastRefill, events) && CountsBytes(events) && rate > 0 && n <= b.burst
    requires i < |polls| && Timely(EndTime(b.lastRefill, events), Polls(polls, n))
    requires var c := Play(b, events + [SetRate(rate)]).0;
             Refusals(c, Polls(polls, n), i) && rate * (polls[i] - c.lastRefill) >= (2 * n + 1) * SECOND
    ensures AttemptIsGranted(Play(b, events + [SetRate(rate)]).0, Polls(polls, n), i)
  {
    RateIsChanged(b, events, rate);
    hide Play, EndTime, Timely, Polls, Refusals, AttemptIsGranted;
    var c := Play(b, events + [SetRate(rate)]).0;
    TimelySooner(EndTime(b.lastRefill, events), c.lastRefill, Polls(polls, n));
    PollsPayOff(c, polls, n, i);
  }

  lemma AdmittedAtRate(c: Bucket, start: int, more: seq<Event>, rate: nat)
    requires Solvent(c) && c.rate == rate && c.lastRefill <= start && Timely(start, more)
    requires forall e :: e in more ==> !e.SetRate?
    ensures Play(c, more).1 * SECOND <= c.tokens * SECOND + rate * (EndTime(start, more) - c.lastRefill)
  {
    BytesArePaidFor(c, start, more, rate);
    var last, end := Play(c, more).0.lastRefill, EndTime(start, more);
    hide *;
    EarnedInHalves(rate, c.lastRefill, last, end);
    Scale(0, rate, end - last);
  }

  lemma {:induction false} TimelySooner(start: int, earlier: int, events: seq<Event>)
    requires earlier <= start && Timely(start, events)
    ensures Timely(earlier, events) && EndTime(earlier, events) <= EndTime(start, events)
  {
    if events != [] {
      TimelySooner(start, earlier, events[..|events| - 1]);
    }
  }
}
