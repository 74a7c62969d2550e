/**
  The sliding-window rate limiter (src/config.rs): one entry per client with the
  counts of the current and the previous minute, and a periodic cleanup.

  The estimated rate is computed in 32-bit floating point. Its rounding is left
  open: any estimator will do that returns one for a first request and never
  less than the current count, as far as 24-bit significands represent it.
  */
module RateLimiting {
  import opened Bytes

  datatype Entry = Entry(currentCount: u32, previousCount: u32, currentMinute: nat)

  type Table = map<string, Entry>

  /** The rate estimated from the previous count, the current count, and the second within the minute. */
  type Estimator = (nat, nat, nat) -> nat

  const F32_EXACT: nat := 0x100_0000

  ghost predicate Sound(estimate: Estimator) {
    && (forall second: nat :: estimate(0, 1, second) == 1)
    && forall previous: nat, current: nat, second: nat ::
         estimate(previous, current, second) >= Min(current, F32_EXACT)
  }

  /** Exact arithmetic, rounded up, is a sound estimator. */
  function ExactEstimate(previous: nat, current: nat, second: nat): nat {
    if second >= 60 then current else (previous * (60 - second) + 60 * current + 59) / 60
  }

  lemma ExactAtLeast(previous: nat, current: nat, second: nat)
    ensures ExactEstimate(previous, current, second) >= current
  {
    if second < 60 {
      assert previous * (60 - second) >= 0;
    }
  }

  lemma ScaledWeight(previous: nat, second: nat)
    requires second < 60
    ensures previous as real * ((60 - second) as real / 60.0) * 60.0 == (previous * (60 - second)) as real
  {
    var p, w := previous as real, (60 - second) as real;
    assert p * (w / 60.0) * 60.0 == p * w;
    assert p * w == (previous * (60 - second)) as real;
  }

  /** It is the ceiling of the previous count, weighted by the rest of the minute, plus the current count. */
  lemma ExactEstimateIsCeiling(previous: nat, current: nat, second: nat)
    requires second < 60
    ensures var weighted := previous as real * ((60 - second) as real / 60.0) + current as real;
            var n := ExactEstimate(previous, current, second) as real;
            n - 1.0 < weighted <= n
  {
    ScaledWeight(previous, second);
    var total := previous * (60 - second) + 60 * current;
    assert 60 * ExactEstimate(previous, current, second) - 60 < total <= 60 * ExactEstimate(previous, current, second);
  }

  lemma ExactEstimateSound()
    ensures Sound(ExactEstimate)
  {
    forall previous: nat, current: nat, second: nat
      ensures ExactEstimate(previous, current, second) >= Min(current, F32_EXACT)
    {
      ExactAtLeast(previous, current, second);
    }
  }

  // ---------------------------------------------------------------------------
  // One step
  // ---------------------------------------------------------------------------

  /** An entry after one more request. */
  function Recorded(e: Entry, minute: nat): Entry {
    if minute > e.currentMinute then
      Entry(1, if minute == e.currentMinute + 1 then e.currentCount else 0, minute)
    else
      e.(currentCount := (e.currentCount + 1) % (U32_MAX + 1))
  }

  function EntryAfter(table: Table, client: string, minute: nat): Entry {
    if client in table then Recorded(table[client], minute) else Entry(1, 0, minute)
  }

  function RateAfter(estimate: Estimator, table: Table, client: string, minute: nat, second: nat): nat {
    if client in table then
      var e := Recorded(table[client], minute);
      estimate(e.previousCount, e.currentCount, second)
    else 1
  }

  /** The table without the entries that are two or more minutes old. */
  function Cleaned(table: Table, minute: nat): Table {
    map c | c in table && Max(minute - table[c].currentMinute, 0) < 2 :: table[c]
  }

  class RateLimiter {
    var entries: Table

    constructor ()
      ensures entries == map[]
    {
      entries := map[];
    }

    method Cleanup(nowSeconds: nat)
      modifies this
      ensures entries == Cleaned(old(entries), nowSeconds / 60)
      ensures forall c :: c in entries <==>
                c in old(entries) && nowSeconds / 60 < old(entries)[c].currentMinute + 2
      ensures forall c :: c in entries ==> entries[c] == old(entries)[c]
    {
      entries := map c | c in entries && Max(nowSeconds / 60 - entries[c].currentMinute, 0) < 2 :: entries[c];
    }

    /**
      One request. Cleanup comes first when more than five minutes have passed
      since the last one; it reads the clock on its own.
      */
    method CheckAndRecord(
      estimate: Estimator, client: string, limit: u64, sinceCleanup: nat, cleanupSeconds: nat, nowSeconds: nat)
      returns (allowed: bool, rate: nat)
      modifies this
      ensures var table := if sinceCleanup > 300 then Cleaned(old(entries), cleanupSeconds / 60) else old(entries);
              && entries == table[client := EntryAfter(table, client, nowSeconds / 60)]
              && rate == RateAfter(estimate, table, client, nowSeconds / 60, nowSeconds % 60)
              && allowed == (rate <= limit)
    {
      if sinceCleanup > 300 {
        Cleanup(cleanupSeconds);
      }
      var minute, second := nowSeconds / 60, nowSeconds % 60;
      if client in entries {
        var e := entries[client];
        if minute > e.currentMinute {
          if minute == e.currentMinute + 1 {
            e := Entry(1, e.currentCount, minute);
          } else {
            e := Entry(1, 0, minute);
          }
        } else {
          e := e.(currentCount := (e.currentCount + 1) % (U32_MAX + 1));
        }
        rate := estimate(e.previousCount, e.currentCount, second);
        entries := entries[client := e];
      } else {
        entries := entries[client := Entry(1, 0, minute)];
        rate := 1;
      }
      allowed := rate <= limit;
    }
  }

  // ---------------------------------------------------------------------------
  // Runs
  // ---------------------------------------------------------------------------

  datatype Event = Request(client: string, limit: u64, minute: nat, second: nat) | CleanUp(minute: nat)

  function After(table: Table, e: Event): Table {
    match e
    case Request(client, _, minute, _) => table[client := EntryAfter(table, client, minute)]
    case CleanUp(minute) => Cleaned(table, minute)
  }

  datatype Decision = Decision(allowed: bool, rate: nat)

  function Decide(estimate: Estimator, table: Table, e: Event): Decision
    requires e.Request?
  {
    var rate := RateAfter(estimate, table, e.client, e.minute, e.second);
    Decision(rate <= e.limit, rate)
  }

  /** The decisions of a run, one per request. */
  function Decisions(estimate: Estimator, table: Table, run: seq<Event>): seq<Decision>
    decreases |run|
  {
    if run == [] then []
    else (if run[0].Request? then [Decide(estimate, table, run[0])] else [])
         + Decisions(estimate, After(table, run[0]), run[1..])
  }

  /** The clock never goes back. */
  predicate ClockFrom(run: seq<Event>, now: nat)
    decreases |run|
  {
    run == [] || (now <= run[0].minute && ClockFrom(run[1..], run[0].minute))
  }

  function WithoutCleanups(run: seq<Event>): seq<Event> {
    if run == [] then [] else (if run[0].Request? then [run[0]] else []) + WithoutCleanups(run[1..])
  }

  // ---------------------------------------------------------------------------
  // Cleanup is unobservable
  // ---------------------------------------------------------------------------

  /** Two entries that no future request can tell apart: equal, or both forgotten by now. */
  predicate Alike(cleaned: Table, kept: Table, client: string, now: nat) {
    if client in cleaned then client in kept && kept[client] == cleaned[client]
    else client in kept ==> kept[client].currentMinute + 2 <= now
  }

  ghost predicate Indistinguishable(cleaned: Table, kept: Table, now: nat) {
    forall client :: Alike(cleaned, kept, client, now)
  }

  lemma CleanupUnobservedOnce(cleaned: Table, kept: Table, minute: nat, now: nat)
    requires Indistinguishable(cleaned, kept, now) && now <= minute
    ensures Indistinguishable(Cleaned(cleaned, minute), kept, minute)
  {
    forall client ensures Alike(Cleaned(cleaned, minute), kept, client, minute) {
      assert Alike(cleaned, kept, client, now);
    }
  }

  lemma RequestSeesTheSame(estimate: Estimator, cleaned: Table, kept: Table, e: Event, now: nat)
    requires Sound(estimate) && e.Request? && now <= e.minute && Indistinguishable(cleaned, kept, now)
    ensures Decide(estimate, cleaned, e) == Decide(estimate, kept, e)
    ensures Indistinguishable(After(cleaned, e), After(kept, e), e.minute)
  {
    assert Alike(cleaned, kept, e.client, now);
    forall client ensures Alike(After(cleaned, e), After(kept, e), client, e.minute) {
      assert Alike(cleaned, kept, client, now);
    }
  }

  lemma {:induction false} CleanupUnobservedFrom(
    estimate: Estimator, cleaned: Table, kept: Table, run: seq<Event>, now: nat)
    requires Sound(estimate) && ClockFrom(run, now) && Indistinguishable(cleaned, kept, now)
    ensures Decisions(estimate, cleaned, run) == Decisions(estimate, kept, WithoutCleanups(run))
    decreases |run|
  {
    if run != [] {
      var e, rest := run[0], run[1..];
      if e.Request? {
        RequestSeesTheSame(estimate, cleaned, kept, e, now);
        CleanupUnobservedFrom(estimate, After(cleaned, e), After(kept, e), rest, e.minute);
        assert ([e] + WithoutCleanups(rest))[1..] == WithoutCleanups(rest);
      } else {
        CleanupUnobservedOnce(cleaned, kept, e.minute, now);
        CleanupUnobservedFrom(estimate, After(cleaned, e), kept, rest, e.minute);
        assert [] + WithoutCleanups(rest) == WithoutCleanups(rest);
      }
    }
  }

  /** Over every run with a clock that never goes back, cleaning up at any moments changes no decision. */
  lemma CleanupUnobserved(estimate: Estimator, run: seq<Event>)
    requires Sound(estimate) && ClockFrom(run, 0)
    ensures Decisions(estimate, map[], run) == Decisions(estimate, map[], WithoutCleanups(run))
  {
    CleanupUnobservedFrom(estimate, map[], map[], run, 0);
  }

  // ---------------------------------------------------------------------------
  // The limit holds within each minute
  // ---------------------------------------------------------------------------

  predicate IsFor(e: Event, client: string, minute: nat) {
    e.Request? && e.client == client && e.minute == minute
  }

  function Requests(run: seq<Event>, client: string, minute: nat): nat {
    if run == [] then 0 else (if IsFor(run[0], client, minute) then 1 else 0) + Requests(run[1..], client, minute)
  }

  /** The requests of this client within this minute that a run lets through. */
  function Allowed(estimate: Estimator, table: Table, run: seq<Event>, client: string, minute: nat): nat
    decreases |run|
  {
    if run == [] then 0
    else (if IsFor(run[0], client, minute) && Decide(estimate, table, run[0]).allowed then 1 else 0)
         + Allowed(estimate, After(table, run[0]), run[1..], client, minute)
  }

  ghost predicate FixedLimit(run: seq<Event>, limit: u64) {
    forall i :: 0 <= i < |run| && run[i].Request? ==> run[i].limit == limit
  }

  /** The client has made n requests in this minute so far, and the clock is not past it. */
  predicate Tracks(table: Table, client: string, minute: nat, n: nat, now: nat) {
    && now <= minute
    && if n > 0 then
         && now == minute && client in table
         && table[client].currentMinute == minute && table[client].currentCount == n
       else client in table ==> table[client].currentMinute < minute
  }

  lemma {:induction false} NothingAfterTheMinute(
    estimate: Estimator, table: Table, run: seq<Event>, client: string, minute: nat, now: nat)
    requires ClockFrom(run, now) && minute < now
    ensures Allowed(estimate, table, run, client, minute) == 0
    decreases |run|
  {
    if run != [] {
      NothingAfterTheMinute(estimate, After(table, run[0]), run[1..], client, minute, run[0].minute);
    }
  }

  lemma {:induction false} AllowedAtMost(
    estimate: Estimator, table: Table, run: seq<Event>, client: string, minute: nat, limit: u64, n: nat, now: nat)
    requires Sound(estimate) && ClockFrom(run, now) && FixedLimit(run, limit) && limit < F32_EXACT
    requires Tracks(table, client, minute, n, now)
    requires n + Requests(run, client, minute) <= U32_MAX
    ensures Allowed(estimate, table, run, client, minute) <= Max(limit - n, 0)
    decreases |run|
  {
    if run != [] {
      var e, rest := run[0], run[1..];
      assert FixedLimit(rest, limit) by {
        assert forall i :: 0 <= i < |rest| ==> rest[i] == run[i + 1];
      }
      if e.minute > minute {
        NothingAfterTheMinute(estimate, After(table, e), rest, client, minute, e.minute);
      } else {
        var n' := if IsFor(e, client, minute) then n + 1 else n;
        assert Tracks(After(table, e), client, minute, n', e.minute);
        AllowedAtMost(estimate, After(table, e), rest, client, minute, limit, n', e.minute);
      }
    }
  }

  /**
    Over every run with a fixed limit below 2^24 and a clock that never goes
    back, cleanups included, no client gets more than the limit within one clock
    minute, as long as it makes fewer than 2^32 requests in it.
    */
  lemma LimitHoldsEachMinute(estimate: Estimator, run: seq<Event>, client: string, minute: nat, limit: u64)
    requires Sound(estimate) && ClockFrom(run, 0) && FixedLimit(run, limit) && limit < F32_EXACT
    requires Requests(run, client, minute) <= U32_MAX
    ensures Allowed(estimate, map[], run, client, minute) <= limit
  {
    AllowedAtMost(estimate, map[], run, client, minute, limit, 0, 0);
  }

  // The bound on the number of requests is exact: the count is a 32-bit number.

  function Repeat(e: Event, k: nat): (run: seq<Event>)
    ensures |run| == k && forall i :: 0 <= i < k ==> run[i] == e
  {
    seq(k, _ => e)
  }

  /** The table after k equal requests of a client that was unknown before. */
  function Counting(e: Event, k: nat): Table
    requires e.Request?
  {
    if k == 0 then map[] else map[e.client := Entry(k % (U32_MAX + 1), 0, e.minute)]
  }

  lemma CountingStep(e: Event, k: nat)
    requires e.Request?
    ensures After(Counting(e, k), e) == Counting(e, k + 1)
  {
  }

  /** With exact arithmetic, the request after k equal ones is judged by the count modulo 2^32. */
  lemma JudgedByCount(e: Event, k: nat)
    requires e.Request? && e.second < 60
    ensures Decide(ExactEstimate, Counting(e, k), e).allowed <==> (k + 1) % (U32_MAX + 1) <= e.limit
  {
    if k > 0 {
      assert Recorded(Counting(e, k)[e.client], e.minute) == Entry((k + 1) % (U32_MAX + 1), 0, e.minute);
      ExactWithoutPast((k + 1) % (U32_MAX + 1), e.second);
    }
  }

  lemma ExactWithoutPast(current: nat, second: nat)
    ensures ExactEstimate(0, current, second) == current
  {
    if second < 60 {
      assert 0 * (60 - second) == 0;
    }
  }

  lemma {:induction false} AllowedOfRepeats(e: Event, k: nat, m: nat)
    requires e.Request? && e.second < 60
    ensures Allowed(ExactEstimate, Counting(e, k), Repeat(e, m), e.client, e.minute) ==
            LowCounts(e.limit, k, m)
    decreases m
  {
    if m > 0 {
      CountingStep(e, k);
      JudgedByCount(e, k);
      assert Repeat(e, m)[1..] == Repeat(e, m - 1);
      AllowedOfRepeats(e, k + 1, m - 1);
    }
  }

  /** How many of the counts k + 1, ..., k + m are at most the limit modulo 2^32. */
  function LowCounts(limit: u64, k: nat, m: nat): nat
    decreases m
  {
    if m == 0 then 0 else (if (k + 1) % (U32_MAX + 1) <= limit then 1 else 0) + LowCounts(limit, k + 1, m - 1)
  }

  /** The first `limit` counts and the one that wraps to zero. */
  lemma {:induction false} LowCountsOver(limit: u64, k: nat, m: nat)
    requires limit < F32_EXACT && k <= U32_MAX < k + m
    ensures LowCounts(limit, k, m) >= Max(limit - k, 0) + 1
    decreases m
  {
    if k < U32_MAX {
      LowCountsOver(limit, k + 1, m - 1);
    } else {
      assert (k + 1) % (U32_MAX + 1) == 0;
    }
  }

  /** A client that makes 2^32 or more requests in a minute does get more than the limit. */
  lemma WrapLetsMoreThrough(client: string, minute: nat, limit: u64, m: nat)
    requires limit < F32_EXACT && m > U32_MAX
    ensures var run := Repeat(Request(client, limit, minute, 0), m);
            Allowed(ExactEstimate, map[], run, client, minute) > limit
  {
    AllowedOfRepeats(Request(client, limit, minute, 0), 0, m);
    LowCountsOver(limit, 0, m);
  }

  /** No sound estimator and no run with m requests of the client in the minute lets more than the limit through. */
  ghost predicate LimitHolds(client: string, minute: nat, limit: u64, m: nat) {
    forall estimate: Estimator, run: seq<Event> ::
      Sound(estimate) && ClockFrom(run, 0) && FixedLimit(run, limit) && Requests(run, client, minute) == m ==>
        Allowed(estimate, map[], run, client, minute) <= limit
  }

  lemma {:induction false} RepeatIsRun(e: Event, m: nat, now: nat)
    requires e.Request? && now <= e.minute
    ensures ClockFrom(Repeat(e, m), now) && Requests(Repeat(e, m), e.client, e.minute) == m
    decreases m
  {
    if m > 0 {
      assert Repeat(e, m)[1..] == Repeat(e, m - 1);
      RepeatIsRun(e, m - 1, e.minute);
    }
  }

  /** For a limit below 2^24 the limit holds if and only if the client makes fewer than 2^32 requests in the minute. */
  lemma LimitExactly(client: string, minute: nat, limit: u64, m: nat)
    requires limit < F32_EXACT
    ensures LimitHolds(client, minute, limit, m) <==> m <= U32_MAX
  {
    if m <= U32_MAX {
      forall estimate: Estimator, run: seq<Event>
        | Sound(estimate) && ClockFrom(run, 0) && FixedLimit(run, limit) && Requests(run, client, minute) == m
        ensures Allowed(estimate, map[], run, client, minute) <= limit
      {
        LimitHoldsEachMinute(estimate, run, client, minute, limit);
      }
    } else {
      var e := Request(client, limit, minute, 0);
      ExactEstimateSound();
      RepeatIsRun(e, m, 0);
      WrapLetsMoreThrough(client, minute, limit, m);
      assert FixedLimit(Repeat(e, m), limit);
    }
  }

  // ---------------------------------------------------------------------------
  // Every decision is made on the requests of the run
  // ---------------------------------------------------------------------------

  /** The requests of this client in the minute before. */
  function RequestsBefore(seen: seq<Event>, client: string, minute: nat): nat {
    if minute == 0 then 0 else Requests(seen, client, minute - 1)
  }

  /** The decision on a request from what the run has seen so far, counted in 32 bits. */
  function Judged(estimate: Estimator, seen: seq<Event>, e: Event): Decision
    requires e.Request?
  {
    var previous := RequestsBefore(seen, e.client, e.minute) % 0x1_0000_0000;
    var current := (Requests(seen, e.client, e.minute) + 1) % 0x1_0000_0000;
    var rate := estimate(previous, current, e.second);
    Decision(rate <= e.limit, rate)
  }

  /** An entry holds the counts of its minute and the one before; no entry, nothing in this minute and the last. */
  ghost predicate Counts(table: Table, seen: seq<Event>, client: string, now: nat) {
    if client in table then
      var e := table[client];
      && e.currentMinute <= now
      && e.currentCount == Requests(seen, client, e.currentMinute) % 0x1_0000_0000
      && e.previousCount == RequestsBefore(seen, client, e.currentMinute) % 0x1_0000_0000
      && forall m: nat :: m > e.currentMinute ==> Requests(seen, client, m) == 0
    else forall m: nat :: m + 1 >= now ==> Requests(seen, client, m) == 0
  }

  ghost predicate AllCount(table: Table, seen: seq<Event>, now: nat) {
    forall client :: Counts(table, seen, client, now)
  }

  lemma {:induction false} RequestsConcat(a: seq<Event>, b: seq<Event>, client: string, minute: nat)
    ensures Requests(a + b, client, minute) == Requests(a, client, minute) + Requests(b, client, minute)
  {
    if a == [] {
      assert a + b == b;
    } else {
      assert (a + b)[1..] == a[1..] + b;
      RequestsConcat(a[1..], b, client, minute);
    }
  }

  lemma {:induction false} RequestsOneMore(seen: seq<Event>, e: Event, client: string)
    ensures forall m: nat ::
              Requests(seen + [e], client, m) == Requests(seen, client, m) + if IsFor(e, client, m) then 1 else 0
  {
    forall m: nat
      ensures Requests(seen + [e], client, m) == Requests(seen, client, m) + if IsFor(e, client, m) then 1 else 0
    {
      RequestsConcat(seen, [e], client, m);
      assert [e][1..] == [];
    }
  }

  lemma CountsOwn(table: Table, seen: seq<Event>, now: nat, e: Event)
    requires e.Request? && Counts(table, seen, e.client, now) && now <= e.minute
    ensures Counts(After(table, e), seen + [e], e.client, e.minute)
  {
    RequestsOneMore(seen, e, e.client);
    var minute := e.minute;
    assert After(table, e)[e.client] == EntryAfter(table, e.client, minute);
    if e.client in table && table[e.client].currentMinute == minute {
      assert Requests(seen + [e], e.client, minute) == Requests(seen, e.client, minute) + 1;
    } else {
      assert Requests(seen, e.client, minute) == 0;
    }
  }

  lemma CountsOther(table: Table, seen: seq<Event>, client: string, now: nat, e: Event)
    requires e.Request? && client != e.client && Counts(table, seen, client, now) && now <= e.minute
    ensures Counts(After(table, e), seen + [e], client, e.minute)
  {
    RequestsOneMore(seen, e, client);
  }

  lemma CountsCleanup(table: Table, seen: seq<Event>, client: string, now: nat, e: Event)
    requires e.CleanUp? && Counts(table, seen, client, now) && now <= e.minute
    ensures Counts(After(table, e), seen + [e], client, e.minute)
  {
    RequestsOneMore(seen, e, client);
  }

  lemma CountsStep(table: Table, seen: seq<Event>, client: string, now: nat, e: Event)
    requires Counts(table, seen, client, now) && now <= e.minute
    ensures Counts(After(table, e), seen + [e], client, e.minute)
  {
    if e.CleanUp? {
      CountsCleanup(table, seen, client, now, e);
    } else if client == e.client {
      CountsOwn(table, seen, now, e);
    } else {
      CountsOther(table, seen, client, now, e);
    }
  }

  lemma JudgedByTable(estimate: Estimator, table: Table, seen: seq<Event>, now: nat, e: Event)
    requires Sound(estimate) && e.Request? && Counts(table, seen, e.client, now) && now <= e.minute
    ensures Decide(estimate, table, e) == Judged(estimate, seen, e)
  {
    var entry := EntryAfter(table, e.client, e.minute);
    CountsOwn(table, seen, now, e);
    RequestsOneMore(seen, e, e.client);
    assert entry == After(table, e)[e.client] && entry.currentMinute == e.minute;
    assert Decide(estimate, table, e).rate == estimate(entry.previousCount, entry.currentCount, e.second);
  }

  /** One event: the request is judged by its counts, and the table goes on holding them. */
  lemma EventByCounts(estimate: Estimator, table: Table, seen: seq<Event>, now: nat, e: Event)
    requires Sound(estimate) && AllCount(table, seen, now) && now <= e.minute
    ensures e.Request? ==> Decide(estimate, table, e) == Judged(estimate, seen, e)
    ensures AllCount(After(table, e), seen + [e], e.minute)
  {
    forall client ensures Counts(After(table, e), seen + [e], client, e.minute) {
      assert Counts(table, seen, client, now);
      CountsStep(table, seen, client, now, e);
    }
    if e.Request? {
      assert Counts(table, seen, e.client, now);
      JudgedByTable(estimate, table, seen, now, e);
    }
  }

  /** The decisions of a run, each from the requests before it. */
  function ByCounts(estimate: Estimator, seen: seq<Event>, run: seq<Event>): seq<Decision>
    decreases |run|
  {
    if run == [] then []
    else (if run[0].Request? then [Judged(estimate, seen, run[0])] else [])
         + ByCounts(estimate, seen + [run[0]], run[1..])
  }

  lemma {:induction false} DecisionsByCountsFrom(
    estimate: Estimator, table: Table, seen: seq<Event>, run: seq<Event>, now: nat)
    requires Sound(estimate) && ClockFrom(run, now) && AllCount(table, seen, now)
    ensures Decisions(estimate, table, run) == ByCounts(estimate, seen, run)
    decreases |run|
  {
    if run != [] {
      EventByCounts(estimate, table, seen, now, run[0]);
      DecisionsByCountsFrom(estimate, After(table, run[0]), seen + [run[0]], run[1..], run[0].minute);
    }
  }

  /**
    Over every run with a clock that never goes back, cleanups anywhere, each
    decision is made on the number of earlier requests of that client in the
    minute before and on one more than those in its own minute.
    */
  lemma DecisionsByCounts(estimate: Estimator, run: seq<Event>)
    requires Sound(estimate) && ClockFrom(run, 0)
    ensures Decisions(estimate, map[], run) == ByCounts(estimate, [], run)
  {
    DecisionsByCountsFrom(estimate, map[], [], run, 0);
  }

  // ---------------------------------------------------------------------------
  // The limiter itself, over many calls
  // ---------------------------------------------------------------------------

  /** One call of `CheckAndRecord`, with what the clocks say. */
  datatype Call = Call(client: string, limit: u64, sinceCleanup: nat, cleanupSeconds: nat, nowSeconds: nat)

  function EventsOf(c: Call): (run: seq<Event>)
    ensures 1 <= |run| <= 2
  {
    (if c.sinceCleanup > 300 then [CleanUp(c.cleanupSeconds / 60)] else [])
    + [Request(c.client, c.limit, c.nowSeconds / 60, c.nowSeconds % 60)]
  }

  function RunOf(calls: seq<Call>): seq<Event> {
    if calls == [] then [] else EventsOf(calls[0]) + RunOf(calls[1..])
  }

  /** The calls of this client within this minute that were let through. */
  function Granted(calls: seq<Call>, decisions: seq<Decision>, client: string, minute: nat): nat
    requires |calls| == |decisions|
  {
    if calls == [] then 0
    else (if calls[0].client == client && calls[0].nowSeconds / 60 == minute && decisions[0].allowed then 1 else 0)
         + Granted(calls[1..], decisions[1..], client, minute)
  }

  /** The table that a call finds after its cleanup. */
  function TableAt(table: Table, c: Call): Table {
    if c.sinceCleanup > 300 then Cleaned(table, c.cleanupSeconds / 60) else table
  }

  /** What one call adds to the decisions of a run, and to the requests let through. */
  lemma {:induction false} OneCall(
    estimate: Estimator, table: Table, c: Call, rest: seq<Event>, client: string, minute: nat)
    ensures var e, at := Request(c.client, c.limit, c.nowSeconds / 60, c.nowSeconds % 60), TableAt(table, c);
            && Decisions(estimate, table, EventsOf(c) + rest) ==
               [Decide(estimate, at, e)] + Decisions(estimate, After(at, e), rest)
            && Allowed(estimate, table, EventsOf(c) + rest, client, minute) ==
               (if IsFor(e, client, minute) && Decide(estimate, at, e).allowed then 1 else 0)
               + Allowed(estimate, After(at, e), rest, client, minute)
  {
    var e, run := Request(c.client, c.limit, c.nowSeconds / 60, c.nowSeconds % 60), EventsOf(c) + rest;
    if c.sinceCleanup > 300 {
      assert run[0] == CleanUp(c.cleanupSeconds / 60) && run[1..][0] == e && run[1..][1..] == rest;
      assert [] + Decisions(estimate, TableAt(table, c), run[1..]) == Decisions(estimate, TableAt(table, c), run[1..]);
    } else {
      assert run[0] == e && run[1..] == rest;
    }
  }

  /** Counting what the decisions let through is counting what the run lets through. */
  lemma {:induction false} GrantedIsAllowed(
    estimate: Estimator, table: Table, calls: seq<Call>, decisions: seq<Decision>, client: string, minute: nat)
    requires decisions == Decisions(estimate, table, RunOf(calls)) && |decisions| == |calls|
    ensures Granted(calls, decisions, client, minute) == Allowed(estimate, table, RunOf(calls), client, minute)
    decreases |calls|
  {
    if calls != [] {
      var c := calls[0];
      var e := Request(c.client, c.limit, c.nowSeconds / 60, c.nowSeconds % 60);
      OneCall(estimate, table, c, RunOf(calls[1..]), client, minute);
      GrantedIsAllowed(estimate, After(TableAt(table, c), e), calls[1..], decisions[1..], client, minute);
    }
  }

  function RequestOf(c: Call): (e: Event)
    ensures e.Request?
  {
    Request(c.client, c.limit, c.nowSeconds / 60, c.nowSeconds % 60)
  }

  /** A cleanup is no request. */
  lemma JudgedPastCleanup(estimate: Estimator, seen: seq<Event>, minute: nat, e: Event)
    requires e.Request?
    ensures Judged(estimate, seen + [CleanUp(minute)], e) == Judged(estimate, seen, e)
  {
    RequestsOneMore(seen, CleanUp(minute), e.client);
  }

  lemma {:induction false} CallByCounts(
    estimate: Estimator, table: Table, seen: seq<Event>, c: Call, rest: seq<Event>, now: nat)
    requires Sound(estimate) && ClockFrom(EventsOf(c) + rest, now) && AllCount(table, seen, now)
    ensures var at := TableAt(table, c);
            && Decide(estimate, at, RequestOf(c)) == Judged(estimate, seen, RequestOf(c))
            && ClockFrom(rest, c.nowSeconds / 60)
            && AllCount(After(at, RequestOf(c)), seen + EventsOf(c), c.nowSeconds / 60)
  {
    var e, run := RequestOf(c), EventsOf(c) + rest;
    if c.sinceCleanup > 300 {
      var cleanup := CleanUp(c.cleanupSeconds / 60);
      assert run[0] == cleanup && run[1..][0] == e && run[1..][1..] == rest;
      EventByCounts(estimate, table, seen, now, cleanup);
      JudgedPastCleanup(estimate, seen, cleanup.minute, e);
      EventByCounts(estimate, TableAt(table, c), seen + [cleanup], cleanup.minute, e);
      assert seen + EventsOf(c) == seen + [cleanup] + [e];
    } else {
      assert run[0] == e && run[1..] == rest;
      EventByCounts(estimate, table, seen, now, e);
      assert EventsOf(c) == [e];
    }
  }

  lemma RunOfPrefix(calls: seq<Call>, k: nat)
    requires 0 < k <= |calls|
    ensures RunOf(calls[..k]) == EventsOf(calls[0]) + RunOf(calls[1..][..k - 1])
  {
    assert calls[..k][1..] == calls[1..][..k - 1];
  }

  /** Each call is judged by the requests of the calls before it. */
  lemma {:induction false} CallsByCounts(
    estimate: Estimator, table: Table, seen: seq<Event>, calls: seq<Call>, decisions: seq<Decision>, now: nat)
    requires Sound(estimate) && ClockFrom(RunOf(calls), now) && AllCount(table, seen, now)
    requires decisions == Decisions(estimate, table, RunOf(calls)) && |decisions| == |calls|
    ensures forall k :: 0 <= k < |calls| ==>
              decisions[k] == Judged(estimate, seen + RunOf(calls[..k]), RequestOf(calls[k]))
    decreases |calls|
  {
    if calls != [] {
      var c := calls[0];
      var e, rest := RequestOf(c), RunOf(calls[1..]);
      OneCall(estimate, table, c, rest, c.client, 0);
      CallByCounts(estimate, table, seen, c, rest, now);
      CallsByCounts(estimate, After(TableAt(table, c), e), seen + EventsOf(c), calls[1..], decisions[1..], e.minute);
      forall k | 0 <= k < |calls|
        ensures decisions[k] == Judged(estimate, seen + RunOf(calls[..k]), RequestOf(calls[k]))
      {
        if k == 0 {
          assert seen + RunOf(calls[..0]) == seen;
        } else {
          RunOfPrefix(calls, k);
          Associativity(seen, EventsOf(c), RunOf(calls[1..][..k - 1]));
          assert decisions[k] == decisions[1..][k - 1];
        }
      }
    }
  }

  /**
    A new limiter over any calls. Its decisions are those of the run; with a
    clock that never goes back they are those of a limiter that never cleans
    up, each is made on the counts of the calls before it, and a client gets no
    more than a fixed limit within one minute.
    */
  method Serve(estimate: Estimator, calls: seq<Call>) returns (decisions: seq<Decision>)
    ensures |decisions| == |calls| && decisions == Decisions(estimate, map[], RunOf(calls))
    ensures Sound(estimate) && ClockFrom(RunOf(calls), 0) ==>
              decisions == Decisions(estimate, map[], WithoutCleanups(RunOf(calls)))
    ensures Sound(estimate) && ClockFrom(RunOf(calls), 0) ==>
              forall k :: 0 <= k < |calls| ==>
                decisions[k] == Judged(estimate, RunOf(calls[..k]), RequestOf(calls[k]))
    ensures forall client: string, minute: nat, limit: u64 ::
              && Sound(estimate) && ClockFrom(RunOf(calls), 0)
              && FixedLimit(RunOf(calls), limit) && limit < F32_EXACT
              && Requests(RunOf(calls), client, minute) <= U32_MAX ==>
                Granted(calls, decisions, client, minute) <= limit
  {
    var limiter := new RateLimiter();
    decisions := [];
    assert calls[0..] == calls;
    for i := 0 to |calls|
      invariant |decisions| == i
      invariant decisions + Decisions(estimate, limiter.entries, RunOf(calls[i..])) ==
                Decisions(estimate, map[], RunOf(calls))
    {
      var c := calls[i];
      assert calls[i..][1..] == calls[i + 1..];
      OneCall(estimate, limiter.entries, c, RunOf(calls[i + 1..]), c.client, 0);
      ghost var before := decisions;
      var allowed, rate :=
        limiter.CheckAndRecord(estimate, c.client, c.limit, c.sinceCleanup, c.cleanupSeconds, c.nowSeconds);
      decisions := decisions + [Decision(allowed, rate)];
      Associativity(before, [Decision(allowed, rate)], Decisions(estimate, limiter.entries, RunOf(calls[i + 1..])));
    }
    assert decisions + [] == decisions;
    Served(estimate, calls, decisions);
  }

  lemma Served(estimate: Estimator, calls: seq<Call>, decisions: seq<Decision>)
    requires |decisions| == |calls| && decisions == Decisions(estimate, map[], RunOf(calls))
    ensures Sound(estimate) && ClockFrom(RunOf(calls), 0) ==>
              decisions == Decisions(estimate, map[], WithoutCleanups(RunOf(calls)))
    ensures Sound(estimate) && ClockFrom(RunOf(calls), 0) ==>
              forall k :: 0 <= k < |calls| ==>
                decisions[k] == Judged(estimate, RunOf(calls[..k]), RequestOf(calls[k]))
    ensures forall client: string, minute: nat, limit: u64 ::
              && Sound(estimate) && ClockFrom(RunOf(calls), 0)
              && FixedLimit(RunOf(calls), limit) && limit < F32_EXACT
              && Requests(RunOf(calls), client, minute) <= U32_MAX ==>
                Granted(calls, decisions, client, minute) <= limit
  {
    if Sound(estimate) && ClockFrom(RunOf(calls), 0) {
      CleanupUnobserved(estimate, RunOf(calls));
      CallsByCounts(estimate, map[], [], calls, decisions, 0);
      assert forall k :: 0 <= k < |calls| ==> [] + RunOf(calls[..k]) == RunOf(calls[..k]);
      forall client: string, minute: nat, limit: u64
        | && FixedLimit(RunOf(calls), limit) && limit < F32_EXACT
          && Requests(RunOf(calls), client, minute) <= U32_MAX
        ensures Granted(calls, decisions, client, minute) <= limit
      {
        LimitHoldsEachMinute(estimate, RunOf(calls), client, minute, limit);
        GrantedIsAllowed(estimate, map[], calls, decisions, client, minute);
      }
    }
  }
}
