/**
 * The GraphQL limiter for one identity: a counter key per time bucket, incremented by every request
 * and given one window of life by the first.
 */
module FixedWindow {
  import opened Decimal
  import opened Sequences

  datatype Counter = Counter(count: nat, expiresAt: int)

  /** A window of zero divides to infinity: every request gets the same key. */
  function Bucket(now: nat, windowMs: nat): nat { if windowMs == 0 then 0 else Quot(now, windowMs) }

  /** The counter of a bucket as Redis answers for it. */
  function Live(counters: map<nat, Counter>, bucket: nat, now: int): nat {
    if bucket in counters && now < counters[bucket].expiresAt then counters[bucket].count else 0
  }

  /** Increment; a fresh counter is given its expiry, a live one keeps it. */
  function Bumped(counters: map<nat, Counter>, bucket: nat, now: int, windowMs: nat): map<nat, Counter> {
    var count := Live(counters, bucket, now) + 1;
    counters[bucket := Counter(count, if count == 1 then now + windowMs else counters[bucket].expiresAt)]
  }

  class Guard {
    var counters: map<nat, Counter>
    ghost var history: seq<nat>
    const limit: int
    const windowMs: nat

    /** The counters are those the requests so far leave. */
    ghost predicate Valid()
      reads this
    {
      counters == Counters(history, windowMs)
    }

    constructor (limit: int, windowMs: nat)
      ensures this.limit == limit && this.windowMs == windowMs && history == [] && Valid()
    {
      this.limit, this.windowMs, counters, history := limit, windowMs, map[], [];
    }

    /**
     * While the clock does not go back: passes exactly if fewer than the limit came before it in its
     * bucket. With a window of zero the key is gone at once and nothing is ever limited.
     */
    method CanActivate(now: nat) returns (pass: bool)
      requires Valid()
      modifies this
      ensures Valid() && history == old(history) + [now]
      ensures InOrder(history) && windowMs > 0 ==>
                  (pass <==> InBucket(old(history), Bucket(now, windowMs), windowMs) < limit)
      ensures InOrder(history) && windowMs == 0 ==> (pass <==> 0 < limit)
    {
      CountersSnoc(history, now, windowMs);
      history := history + [now];
      hide InOrder, InBucket, Counters;
      var bucket := Bucket(now, windowMs);
      var count := Live(counters, bucket, now) + 1;
      if count == 1 {
        counters := counters[bucket := Counter(count, now + windowMs)];
      } else {
        counters := counters[bucket := Counter(count, counters[bucket].expiresAt)];
      }
      pass := count <= limit;
    }
  }

  // ---------------------------------------------------------------------------------------------
  // Whole request histories
  // ---------------------------------------------------------------------------------------------

  function Counters(times: seq<nat>, windowMs: nat): map<nat, Counter> {
    if times == [] then map[]
    else
      var now := times[|times| - 1];
      Bumped(Counters(times[..|times| - 1], windowMs), Bucket(now, windowMs), now, windowMs)
  }

  predicate Passes(times: seq<nat>, i: nat, limit: int, windowMs: nat)
    requires i < |times| && windowMs > 0
  {
    Live(Counters(times[..i], windowMs), Bucket(times[i], windowMs), times[i]) < limit
  }

  /** Requests in a bucket. */
  function InBucket(times: seq<nat>, bucket: nat, windowMs: nat): nat {
    if times == [] then 0
    else InBucket(times[..|times| - 1], bucket, windowMs) + if Bucket(times[|times| - 1], windowMs) == bucket then 1
      else 0
  }

  lemma BucketSpan(now: nat, later: nat, windowMs: nat)
    requires windowMs > 0 && now <= later
    ensures Bucket(now, windowMs) <= Bucket(later, windowMs)
    ensures Bucket(now, windowMs) == Bucket(later, windowMs) ==> later < now + windowMs
    ensures later < now + windowMs ==> Bucket(later, windowMs) <= Bucket(now, windowMs) + 1
  {
    var a, b := Bucket(now, windowMs), Bucket(later, windowMs);
    MulStep(b, a, windowMs);
    MulStep(a + 1, b, windowMs);
    assert (a + 1) * windowMs == a * windowMs + windowMs;
  }

  /** Two moments share a bucket if and only if no multiple of the window lies after the first and up to the second. */
  lemma ShareBucketIff(now: nat, later: nat, windowMs: nat)
    requires windowMs > 0 && now <= later
    ensures Bucket(now, windowMs) == Bucket(later, windowMs) <==> forall m: nat :: !(now < m * windowMs <= later)
  {
    var a, b := Bucket(now, windowMs), Bucket(later, windowMs);
    BucketSpan(now, later, windowMs);
    if a == b {
      forall m: nat ensures !(now < m * windowMs <= later) {
        MulStep(m, a + 1, windowMs);
        MulStep(a + 1, m, windowMs);
        assert (a + 1) * windowMs == a * windowMs + windowMs;
        MulStep(m, a, windowMs);
      }
    } else {
      MulStep(a, b, windowMs);
      assert now < b * windowMs <= later;
    }
  }

  /** The counter never expires inside its own bucket: it is the number of requests seen there. */
  lemma {:induction false} CounterIsExact(times: seq<nat>, now: nat, windowMs: nat)
    requires windowMs > 0 && InOrder(times) && (times != [] ==> times[|times| - 1] <= now)
    ensures Live(Counters(times, windowMs), Bucket(now, windowMs), now)
         == InBucket(times, Bucket(now, windowMs), windowMs)
    ensures var c := Counters(times, windowMs); var b := Bucket(now, windowMs);
            InBucket(times, b, windowMs) > 0 ==>
                b in c && now < c[b].expiresAt && c[b].count == InBucket(times, b, windowMs)
  {
    if times != [] {
      var front, last := times[..|times| - 1], times[|times| - 1];
      BucketSpan(last, now, windowMs);
      if Bucket(last, windowMs) == Bucket(now, windowMs) {
        CounterIsExact(front, last, windowMs);
        SurvivesBucket(front, last, now, windowMs);
      } else {
        CounterIsExact(front, now, windowMs);
      }
    }
  }

  /** A counter of the bucket both moments lie in outlives the later one. */
  lemma {:induction false} SurvivesBucket(times: seq<nat>, now: nat, later: nat, windowMs: nat)
    requires windowMs > 0 && InOrder(times) && now <= later && (times != [] ==> times[|times| - 1] <= now)
    requires Bucket(now, windowMs) == Bucket(later, windowMs)
    ensures var c := Counters(times, windowMs); var b := Bucket(now, windowMs);
            b in c ==> later < c[b].expiresAt
  {
    if times != [] {
      var front, last := times[..|times| - 1], times[|times| - 1];
      if Bucket(last, windowMs) == Bucket(now, windowMs) {
        SurvivesBucket(front, last, later, windowMs);
        BucketSpan(last, later, windowMs);
      } else {
        SurvivesBucket(front, now, later, windowMs);
      }
    }
  }

  /** A zero window leaves only counters that have already expired. */
  lemma {:induction false} ZeroWindowForgets(times: seq<nat>, bucket: nat)
    requires InOrder(times) && times != []
    ensures var c := Counters(times, 0); bucket in c ==> c[bucket].expiresAt <= times[|times| - 1]
  {
    var front, last := times[..|times| - 1], times[|times| - 1];
    if front != [] {
      ZeroWindowForgets(front, bucket);
      ZeroWindowForgets(front, Bucket(last, 0));
    }
  }

  /** One more request, for the counters and for what the counter of its bucket says. */
  lemma CountersSnoc(times: seq<nat>, now: nat, windowMs: nat)
    ensures Counters(times + [now], windowMs) == Bumped(Counters(times, windowMs), Bucket(now, windowMs), now, windowMs)
    ensures InOrder(times + [now]) ==>
              Live(Counters(times, windowMs), Bucket(now, windowMs), now)
              == if windowMs == 0 then 0 else InBucket(times, Bucket(now, windowMs), windowMs)
  {
    var all, n := times + [now], |times|;
    assert all[..|all| - 1] == times && all[n] == now;
    if InOrder(all) {
      assert n > 0 ==> all[n - 1] <= all[n] && all[n - 1] == times[n - 1];
      assert InOrder(times) by { assert forall i :: 0 <= i < n ==> all[i] == times[i]; }
      if windowMs > 0 {
        CounterIsExact(times, now, windowMs);
      } else if n > 0 {
        ZeroWindowForgets(times, Bucket(now, 0));
      }
    }
  }

  /** A request passes if and only if fewer than `limit` earlier requests fell in its bucket. */
  lemma PassesIff(times: seq<nat>, i: nat, limit: int, windowMs: nat)
    requires windowMs > 0 && InOrder(times) && i < |times|
    ensures Passes(times, i, limit, windowMs) <==> InBucket(times[..i], Bucket(times[i], windowMs), windowMs) < limit
  {
    CounterIsExact(times[..i], times[i], windowMs);
  }

  /** Passes among the first `n` requests whose bucket is `bucket`. */
  function PassedInBucket(times: seq<nat>, n: nat, bucket: nat, limit: int, windowMs: nat): nat
    requires n <= |times| && windowMs > 0
  {
    if n == 0 then 0
    else PassedInBucket(times, n - 1, bucket, limit, windowMs)
         + if Bucket(times[n - 1], windowMs) == bucket && Passes(times, n - 1, limit, windowMs) then 1 else 0
  }

  lemma {:induction false} AtMostLimitPerBucket(times: seq<nat>, n: nat, bucket: nat, limit: nat, windowMs: nat)
    requires windowMs > 0 && InOrder(times) && n <= |times|
    ensures PassedInBucket(times, n, bucket, limit, windowMs) <= limit
    ensures PassedInBucket(times, n, bucket, limit, windowMs) <= InBucket(times[..n], bucket, windowMs)
  {
    if n > 0 {
      AtMostLimitPerBucket(times, n - 1, bucket, limit, windowMs);
      PassesIff(times, n - 1, limit, windowMs);
      assert times[..n][..n - 1] == times[..n - 1];
    }
  }

  /** Passes among the first `n` requests in the span of length `windowMs` that starts at `start`. */
  function PassedInSpan(times: seq<nat>, n: nat, start: nat, limit: int, windowMs: nat): nat
    requires n <= |times| && windowMs > 0
  {
    if n == 0 then 0
    else PassedInSpan(times, n - 1, start, limit, windowMs)
         + if start <= times[n - 1] < start + windowMs && Passes(times, n - 1, limit, windowMs) then 1 else 0
  }

  lemma {:induction false} SpanMeetsTwoBuckets(times: seq<nat>, n: nat, start: nat, limit: nat, windowMs: nat)
    requires windowMs > 0 && n <= |times|
    ensures var b := Bucket(start, windowMs);
            PassedInSpan(times, n, start, limit, windowMs)
            <= PassedInBucket(times, n, b, limit, windowMs) + PassedInBucket(times, n, b + 1, limit, windowMs)
  {
    if n > 0 {
      SpanMeetsTwoBuckets(times, n - 1, start, limit, windowMs);
      if start <= times[n - 1] { BucketSpan(start, times[n - 1], windowMs); }
    }
  }

  /** At most `2 * limit` operations pass in any span of one window, over every history. */
  lemma AtMostTwiceLimitInAnySpan(times: seq<nat>, start: nat, limit: nat, windowMs: nat)
    requires windowMs > 0 && InOrder(times)
    ensures PassedInSpan(times, |times|, start, limit, windowMs) <= 2 * limit
  {
    var b := Bucket(start, windowMs);
    SpanMeetsTwoBuckets(times, |times|, start, limit, windowMs);
    AtMostLimitPerBucket(times, |times|, b, limit, windowMs);
    AtMostLimitPerBucket(times, |times|, b + 1, limit, windowMs);
  }
}
