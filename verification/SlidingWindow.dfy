/**
 * The Horizon proxy's sliding-window limiter for one account: a sorted set of request times that is
 * pruned, counted, extended and given a fresh expiry by one atomic block on every request.
 */
module SlidingWindow {
  import opened Options
  import opened Sequences

  /** Request times in order, and when the key expires. */
  datatype ZSet = ZSet(scores: seq<int>, expiresAt: int)

  /** The times after `bound`, in order. */
  function After(times: seq<int>, bound: int): (r: seq<int>)
    ensures |r| <= |times|
  {
    if times == [] then []
    else
      var rest := After(times[..|times| - 1], bound);
      if bound < times[|times| - 1] then rest + [times[|times| - 1]] else rest
  }

  /** Milliseconds to whole seconds, rounded up. */
  function CeilSeconds(ms: int): (s: int)
    ensures 1000 * s - 1000 < ms <= 1000 * s
  {
    (ms + 999) / 1000
  }

  /** What the pruning step leaves of the stored set. */
  function Pruned(entry: Option<ZSet>, now: int, windowMs: nat): seq<int> {
    if entry.Some? && now < entry.value.expiresAt then After(entry.value.scores, now - windowMs) else []
  }

  function Extended(entry: Option<ZSet>, now: int, windowMs: nat): ZSet {
    ZSet(Pruned(entry, now, windowMs) + [now], now + 1000 * CeilSeconds(windowMs))
  }

  class Limiter {
    var entry: Option<ZSet>
    ghost var history: seq<int>
    const maxRequests: int
    const windowMs: nat

    /** The stored set is the one the requests so far leave. */
    ghost predicate Valid()
      reads this
    {
      entry == Stored(history, windowMs)
    }

    constructor (maxRequests: int, windowMs: nat)
      ensures this.maxRequests == maxRequests && this.windowMs == windowMs && history == [] && Valid()
    {
      this.maxRequests, this.windowMs, entry, history := maxRequests, windowMs, None, [];
    }

    /**
     * While the clock does not go back: allowed exactly if fewer than the maximum of all earlier
     * requests are younger than the window, and a refused caller is told when the oldest of them
     * (or the request itself) leaves, in whole seconds and at least one.
     */
    method Check(now: int) returns (allowed: bool, retryAfterSeconds: int)
      requires Valid()
      modifies this
      ensures Valid() && history == old(history) + [now]
      ensures InOrder(history) ==>
                var recent := After(old(history), now - windowMs);
                && (allowed <==> |recent| < maxRequests)
                && (!allowed ==>
                      var wait := CeilSeconds((recent + [now])[0] + windowMs - now);
                      retryAfterSeconds == if wait < 1 then 1 else wait)
      ensures allowed ==> retryAfterSeconds == 0
    {
      hide After, Stored, InOrder, CeilSeconds;
      StoredSnoc(history, now, windowMs);
      history := history + [now];
      var kept := Pruned(entry, now, windowMs);
      var count := |kept|;
      entry := Some(ZSet(kept + [now], now + 1000 * CeilSeconds(windowMs)));
      if count >= maxRequests {
        var retryMs := entry.value.scores[0] + windowMs - now;
        var seconds := CeilSeconds(retryMs);
        return false, if seconds < 1 then 1 else seconds;
      }
      return true, 0;
    }
  }

  // ---------------------------------------------------------------------------------------------
  // Whole request histories
  // ---------------------------------------------------------------------------------------------

  /** The stored set after requests at these times. */
  function Stored(times: seq<int>, windowMs: nat): Option<ZSet> {
    if times == [] then None
    else Some(Extended(Stored(times[..|times| - 1], windowMs), times[|times| - 1], windowMs))
  }

  /** The limiter's verdict on request `i`. */
  predicate Allowed(times: seq<int>, i: nat, maxRequests: int, windowMs: nat)
    requires i < |times|
  {
    |Pruned(Stored(times[..i], windowMs), times[i], windowMs)| < maxRequests
  }

  lemma {:induction false} AfterAfter(times: seq<int>, low: int, high: int)
    requires low <= high
    ensures After(After(times, low), high) == After(times, high)
  {
    if times != [] {
      var front, last := times[..|times| - 1], times[|times| - 1];
      AfterAfter(front, low, high);
      if low < last {
        var r := After(front, low) + [last];
        assert r[..|r| - 1] == After(front, low);
      }
    }
  }

  lemma {:induction false} AfterAll(times: seq<int>, bound: int)
    requires forall i :: 0 <= i < |times| ==> times[i] <= bound
    ensures After(times, bound) == []
  {
    if times != [] {
      AfterAll(times[..|times| - 1], bound);
    }
  }

  lemma AfterSnoc(front: seq<int>, last: int, bound: int)
    ensures After(front + [last], bound) == if bound < last then After(front, bound) + [last] else After(front, bound)
  {
    assert (front + [last])[..|front|] == front;
  }

  /** One more request keeps the stored set equal to the recent history. */
  lemma ExtendIsExact(front: seq<int>, last: int, expiresAt: int, now: int, windowMs: nat)
    requires last <= now && last + windowMs <= expiresAt
    requires forall i :: 0 <= i < |front| ==> front[i] <= last
    ensures Pruned(Some(ZSet(After(front, last - windowMs) + [last], expiresAt)), now, windowMs)
         == After(front + [last], now - windowMs)
  {
    hide After;
    var bound := now - windowMs;
    var times, r := front + [last], After(front, last - windowMs);
    AfterSnoc(front, last, bound);
    AfterSnoc(r, last, bound);
    if now < expiresAt {
      AfterAfter(front, last - windowMs, bound);
    } else {
      AfterAll(times, bound);
    }
  }

  lemma StoredSnoc(times: seq<int>, now: int, windowMs: nat)
    ensures Stored(times + [now], windowMs) == Some(Extended(Stored(times, windowMs), now, windowMs))
    ensures InOrder(times + [now]) ==> Pruned(Stored(times, windowMs), now, windowMs) == After(times, now - windowMs)
  {
    hide After, Extended, Pruned;
    var all := times + [now];
    assert all[..|all| - 1] == times && all[|all| - 1] == now;
    if InOrder(all) {
      assert forall i :: 0 <= i < |times| ==> all[i] == times[i];
      StoredIsExact(times, now, windowMs);
    }
  }

  /** Pruning and expiry never forget a request that is still inside the window. */
  lemma {:induction false} StoredIsExact(times: seq<int>, now: int, windowMs: nat)
    requires InOrder(times) && (times != [] ==> times[|times| - 1] <= now)
    ensures Pruned(Stored(times, windowMs), now, windowMs) == After(times, now - windowMs)
  {
    hide After, CeilSeconds, Pruned, Extended;
    if times == [] {
      NothingStored(now, windowMs);
    } else {
      var front, last := times[..|times| - 1], times[|times| - 1];
      StoredIsExact(front, last, windowMs);
      StillExact(front, last, Stored(front, windowMs), now, windowMs);
      assert times == front + [last];
    }
  }

  lemma NothingStored(now: int, windowMs: nat)
    ensures Pruned(None, now, windowMs) == After([], now - windowMs)
  {
  }

  lemma StillExact(front: seq<int>, last: int, entry: Option<ZSet>, now: int, windowMs: nat)
    requires last <= now && Pruned(entry, last, windowMs) == After(front, last - windowMs)
    requires forall i :: 0 <= i < |front| ==> front[i] <= last
    ensures Pruned(Some(Extended(entry, last, windowMs)), now, windowMs) == After(front + [last], now - windowMs)
  {
    hide After, CeilSeconds;
    ExtendIsExact(front, last, last + 1000 * CeilSeconds(windowMs), now, windowMs);
  }

  /**
   * The sliding window is exact: a request is allowed if and only if fewer than `maxRequests`
   * earlier requests, allowed or denied, lie in the last `windowMs`.
   */
  lemma AllowedIff(times: seq<int>, i: nat, maxRequests: int, windowMs: nat)
    requires InOrder(times) && i < |times|
    ensures Allowed(times, i, maxRequests, windowMs) <==> |After(times[..i], times[i] - windowMs)| < maxRequests
  {
    StoredIsExact(times[..i], times[i], windowMs);
  }

  /** How many of the first `n` requests were allowed and lie in the span of length `windowMs` ending at `end`. */
  function AllowedIn(times: seq<int>, n: nat, end: int, maxRequests: int, windowMs: nat): nat
    requires n <= |times|
  {
    if n == 0 then 0
    else
      AllowedIn(times, n - 1, end, maxRequests, windowMs)
      + if end - windowMs < times[n - 1] <= end && Allowed(times, n - 1, maxRequests, windowMs) then 1 else 0
  }

  lemma {:induction false} AllowedAmongRecent(times: seq<int>, n: nat, end: int, maxRequests: int, windowMs: nat)
    requires n <= |times|
    ensures AllowedIn(times, n, end, maxRequests, windowMs) <= |After(times[..n], end - windowMs)|
  {
    if n > 0 {
      AllowedAmongRecent(times, n - 1, end, maxRequests, windowMs);
      assert times[..n][..n - 1] == times[..n - 1];
    }
  }

  lemma {:induction false} AfterAntitone(times: seq<int>, low: int, high: int)
    requires low <= high
    ensures |After(times, high)| <= |After(times, low)|
  {
    if times != [] {
      AfterAntitone(times[..|times| - 1], low, high);
    }
  }

  /** At most `maxRequests` requests are allowed in any span of `windowMs`, over every history. */
  lemma {:induction false} AtMostMaxInAnySpan(times: seq<int>, n: nat, end: int, maxRequests: nat, windowMs: nat)
    requires InOrder(times) && n <= |times|
    ensures AllowedIn(times, n, end, maxRequests, windowMs) <= maxRequests
  {
    if n > 0 {
      AtMostMaxInAnySpan(times, n - 1, end, maxRequests, windowMs);
      var last := times[n - 1];
      if end - windowMs < last <= end && Allowed(times, n - 1, maxRequests, windowMs) {
        AllowedIff(times, n - 1, maxRequests, windowMs);
        AllowedAmongRecent(times, n - 1, end, maxRequests, windowMs);
        AfterAntitone(times[..n - 1], last - windowMs, end - windowMs);
      }
    }
  }

  lemma {:induction false} AfterPrefix(times: seq<int>, i: nat, j: nat, bound: int)
    requires i <= j <= |times|
    ensures |After(times[..i], bound)| <= |After(times[..j], bound)|
  {
    if i < j {
      AfterPrefix(times, i, j - 1, bound);
      assert times[..j][..j - 1] == times[..j - 1];
    }
  }

  /** Raising the bound keeps every time that lies above the new bound. */
  lemma {:induction false} AfterKeeps(times: seq<int>, low: int, high: int)
    requires forall i :: 0 <= i < |After(times, low)| ==> high < After(times, low)[i]
    requires low <= high
    ensures After(times, high) == After(times, low)
  {
    if times != [] {
      var front, last := times[..|times| - 1], times[|times| - 1];
      var r := After(times, low);
      assert forall i :: 0 <= i < |After(front, low)| ==> After(front, low)[i] == r[i];
      AfterKeeps(front, low, high);
      if low < last { assert r[|r| - 1] == last; }
    }
  }

  /** Until the oldest counted request leaves the window, the later count is no smaller. */
  lemma CountKept(times: seq<int>, i: nat, j: nat, windowMs: nat)
    requires InOrder(times) && i < j < |times|
    requires var recent := After(times[..i], times[i] - windowMs); recent != [] && times[j] < recent[0] + windowMs
    ensures |After(times[..i], times[i] - windowMs)| <= |After(times[..j], times[j] - windowMs)|
  {
    hide After;
    var recent := After(times[..i], times[i] - windowMs);
    AfterInOrder(times[..i], times[i] - windowMs);
    assert forall k :: 0 <= k < |recent| ==> recent[0] <= recent[k];
    AfterKeeps(times[..i], times[i] - windowMs, times[j] - windowMs);
    AfterPrefix(times, i, j, times[j] - windowMs);
  }

  /**
   * After a denial at request `i`, every request strictly before the oldest counted request leaves
   * the window is denied too: asking again early never helps.
   */
  lemma DeniedUntilOldestLeaves(times: seq<int>, i: nat, j: nat, maxRequests: int, windowMs: nat)
    requires InOrder(times) && i < j < |times|
    requires !Allowed(times, i, maxRequests, windowMs)
    requires var recent := After(times[..i], times[i] - windowMs); recent != [] ==> times[j] < recent[0] + windowMs
    ensures !Allowed(times, j, maxRequests, windowMs)
    ensures maxRequests > 0 ==> After(times[..i], times[i] - windowMs) != []
  {
    hide Allowed, After;
    AllowedIff(times, i, maxRequests, windowMs);
    AllowedIff(times, j, maxRequests, windowMs);
    if After(times[..i], times[i] - windowMs) != [] {
      CountKept(times, i, j, windowMs);
    }
  }

  lemma {:induction false} AfterInOrder(times: seq<int>, bound: int)
    requires InOrder(times)
    ensures InOrder(After(times, bound))
    ensures forall i :: 0 <= i < |After(times, bound)| ==> bound < After(times, bound)[i] <= times[|times| - 1]
  {
    if times != [] {
      AfterInOrder(times[..|times| - 1], bound);
    }
  }
}
