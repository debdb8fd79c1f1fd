/**
 The request limiter: a pruned list of accepted times per key answers as the
 whole history would.
 */
module RateLimits {
  import opened Prelude

  type Time = int

  type Entries = map<string, seq<Time>>

  datatype Limits = Limits(maxRequests: nat, window: nat)

  // ---- The operations on the map ----

  /** `retain`: the times later than `cutoff`. */
  function Later(times: seq<Time>, cutoff: Time): seq<Time> {
    if times == [] then []
    else Later(times[..|times| - 1], cutoff) + If(times[|times| - 1] > cutoff, times[|times| - 1])
  }

  /** `[t]`, or nothing. */
  function If(kept: bool, t: Time): seq<Time> {
    if kept then [t] else []
  }

  function TimesOf(m: Entries, key: string): seq<Time> {
    if key in m then m[key] else []
  }

  function Pruned(lim: Limits, times: seq<Time>, now: Time): seq<Time> {
    Later(times, now - lim.window)
  }

  predicate Allowed(lim: Limits, m: Entries, key: string, now: Time) {
    |Pruned(lim, TimesOf(m, key), now)| < lim.maxRequests
  }

  /** A key's times after a check. */
  function Pushed(lim: Limits, times: seq<Time>, now: Time): seq<Time> {
    Pruned(lim, times, now) + If(|Pruned(lim, times, now)| < lim.maxRequests, now)
  }

  function Checked(lim: Limits, m: Entries, key: string, now: Time): Entries {
    m[key := Pushed(lim, TimesOf(m, key), now)]
  }

  function Cleaned(lim: Limits, m: Entries, now: Time): Entries {
    map k | k in m && Pruned(lim, m[k], now) != [] :: Pruned(lim, m[k], now)
  }

  // ---- Runs ----

  datatype Event = Check(key: string, at: Time) | Cleanup(at: Time)

  function Step(lim: Limits, m: Entries, e: Event): Entries {
    match e
    case Check(key, now) => Checked(lim, m, key, now)
    case Cleanup(now) => Cleaned(lim, m, now)
  }

  function Run(lim: Limits, h: seq<Event>): Entries {
    if h == [] then map[] else Step(lim, Run(lim, h[..|h| - 1]), h[|h| - 1])
  }

  ghost predicate Monotone(h: seq<Event>, now: Time) {
    && (forall i, j :: 0 <= i < j < |h| ==> h[i].at <= h[j].at)
    && (forall i :: 0 <= i < |h| ==> h[i].at <= now)
  }

  // ---- The reference: nothing is ever forgotten ----

  /** How many of `times` are after `cutoff`. */
  function Recent(times: seq<Time>, cutoff: Time): nat {
    if times == [] then 0
    else Recent(times[..|times| - 1], cutoff) + if times[|times| - 1] > cutoff then 1 else 0
  }

  lemma {:induction false} LaterCounts(times: seq<Time>, cutoff: Time)
    ensures |Later(times, cutoff)| == Recent(times, cutoff)
  {
    if times != [] {
      LaterCounts(times[..|times| - 1], cutoff);
    }
  }

  /** The times at which `key` was let through, where a check is let through
      when fewer than the maximum were in the window before it. */
  function Accepted(lim: Limits, h: seq<Event>, key: string): seq<Time> {
    if h == [] then []
    else
      var before, e := Accepted(lim, h[..|h| - 1], key), h[|h| - 1];
      before + If(Counts(lim, e, key, before), e.at)
  }

  predicate Counts(lim: Limits, e: Event, key: string, times: seq<Time>) {
    e.Check? && e.key == key && Recent(times, e.at - lim.window) < lim.maxRequests
  }

  lemma {:induction false} LaterPush(times: seq<Time>, t: Time, kept: bool, cutoff: Time)
    ensures Later(times + If(kept, t), cutoff) == Later(times, cutoff) + If(kept && t > cutoff, t)
  {
    if kept {
      assert (times + [t])[..|times|] == times;
    } else {
      assert times + [] == times;
      assert Later(times, cutoff) + [] == Later(times, cutoff);
    }
  }

  lemma {:induction false} LaterTwice(times: seq<Time>, a: Time, b: Time)
    requires a <= b
    ensures Later(Later(times, a), b) == Later(times, b)
    decreases |times|
  {
    if times != [] {
      var init, last := times[..|times| - 1], times[|times| - 1];
      LaterTwice(init, a, b);
      LaterPush(Later(init, a), last, last > a, b);
    }
  }

  /** Whatever is asked from `now` on, `kept` and `times` give the same window. */
  ghost predicate Agree(lim: Limits, kept: seq<Time>, times: seq<Time>, now: Time) {
    forall at {:trigger Pruned(lim, kept, at)} :: at >= now ==> Pruned(lim, kept, at) == Pruned(lim, times, at)
  }

  lemma {:induction false} PruningAgrees(lim: Limits, kept: seq<Time>, times: seq<Time>, now: Time)
    requires Agree(lim, kept, times, now)
    ensures Agree(lim, Pruned(lim, kept, now), times, now)
  {
    forall at | at >= now
      ensures Pruned(lim, Pruned(lim, kept, now), at) == Pruned(lim, times, at)
    {
      LaterTwice(kept, now - lim.window, at - lim.window);
      assert Pruned(lim, kept, at) == Pruned(lim, times, at);
    }
  }

  lemma {:induction false} PushingAgrees(lim: Limits, kept: seq<Time>, times: seq<Time>, pushed: bool, now: Time)
    requires Agree(lim, kept, times, now)
    ensures Agree(lim, kept + If(pushed, now), times + If(pushed, now), now)
  {
    forall at | at >= now
      ensures Pruned(lim, kept + If(pushed, now), at) == Pruned(lim, times + If(pushed, now), at)
    {
      assert Pruned(lim, kept, at) == Pruned(lim, times, at);
      PrunedPush(lim, kept, times, pushed, now, at);
    }
  }

  lemma {:induction false} PrunedPush(lim: Limits, kept: seq<Time>, times: seq<Time>, pushed: bool, now: Time, at: Time)
    requires Pruned(lim, kept, at) == Pruned(lim, times, at)
    ensures Pruned(lim, kept + If(pushed, now), at) == Pruned(lim, times + If(pushed, now), at)
  {
    LaterPush(kept, now, pushed, at - lim.window);
    LaterPush(times, now, pushed, at - lim.window);
  }

  lemma {:induction false} AgreeFrom(lim: Limits, kept: seq<Time>, times: seq<Time>, now: Time, later: Time)
    requires Agree(lim, kept, times, now) && now <= later
    ensures Agree(lim, kept, times, later)
  {
    forall at | at >= later
      ensures Pruned(lim, kept, at) == Pruned(lim, times, at)
    {
    }
  }

  lemma {:induction false} CheckAgrees(lim: Limits, kept: seq<Time>, times: seq<Time>, now: Time)
    requires Agree(lim, kept, times, now)
    ensures Agree(lim, Pushed(lim, kept, now), times + If(|Pruned(lim, times, now)| < lim.maxRequests, now), now)
  {
    var pushed := |Pruned(lim, kept, now)| < lim.maxRequests;
    PruningAgrees(lim, kept, times, now);
    PushingAgrees(lim, Pruned(lim, kept, now), times, pushed, now);
  }

  /** One event keeps what is stored for a key in agreement with the reference. */
  lemma {:induction false} StepAgrees(lim: Limits, m: Entries, e: Event, key: string, times: seq<Time>)
    requires Agree(lim, TimesOf(m, key), times, e.at)
    ensures Agree(lim, TimesOf(Step(lim, m, e), key), times + If(Counts(lim, e, key, times), e.at), e.at)
  {
    var kept := TimesOf(m, key);
    if e.Check? && e.key == key {
      LaterCounts(times, e.at - lim.window);
      CheckAgrees(lim, kept, times, e.at);
    } else {
      assert times + [] == times;
      if e.Cleanup? {
        CleanupAgrees(lim, m, key, times, e.at);
      }
    }
  }

  lemma {:induction false} CleanupAgrees(lim: Limits, m: Entries, key: string, times: seq<Time>, now: Time)
    requires Agree(lim, TimesOf(m, key), times, now)
    ensures Agree(lim, TimesOf(Cleaned(lim, m, now), key), times, now)
  {
    PruningAgrees(lim, TimesOf(m, key), times, now);
    assert TimesOf(Cleaned(lim, m, now), key) == Pruned(lim, TimesOf(m, key), now);
  }

  /** In the pruned state a key's window holds exactly what the whole history
      has in it, from now on; cleanups anywhere in the run make no difference. */
  lemma {:induction false} WindowIsHistory(lim: Limits, h: seq<Event>, key: string, now: Time)
    requires Monotone(h, now)
    ensures Agree(lim, TimesOf(Run(lim, h), key), Accepted(lim, h, key), now)
    decreases |h|
  {
    if h != [] {
      var before, e := h[..|h| - 1], h[|h| - 1];
      WindowIsHistory(lim, before, key, e.at);
      StepAgrees(lim, Run(lim, before), e, key, Accepted(lim, before, key));
      AgreeFrom(lim, TimesOf(Run(lim, h), key), Accepted(lim, h, key), e.at, now);
    }
  }

  /** A check is let through exactly when fewer than the maximum were in the
      window before it. */
  lemma {:induction false} AllowedIff(lim: Limits, h: seq<Event>, key: string, now: Time)
    requires Monotone(h, now)
    ensures Allowed(lim, Run(lim, h), key, now) <==> Recent(Accepted(lim, h, key), now - lim.window) < lim.maxRequests
  {
    LaterCounts(Accepted(lim, h, key), now - lim.window);
    WindowIsHistory(lim, h, key, now);
    SameAnswer(lim, TimesOf(Run(lim, h), key), Accepted(lim, h, key), now);
  }

  lemma {:induction false} SameAnswer(lim: Limits, kept: seq<Time>, times: seq<Time>, now: Time)
    requires Agree(lim, kept, times, now)
    ensures Pruned(lim, kept, now) == Pruned(lim, times, now)
  {
  }

  function WithoutCleanups(h: seq<Event>): seq<Event> {
    if h == [] then []
    else if h[|h| - 1].Cleanup? then WithoutCleanups(h[..|h| - 1])
    else WithoutCleanups(h[..|h| - 1]) + [h[|h| - 1]]
  }

  lemma {:induction false} CleanupsAcceptNothing(lim: Limits, h: seq<Event>, key: string)
    ensures Accepted(lim, WithoutCleanups(h), key) == Accepted(lim, h, key)
    decreases |h|
  {
    if h != [] {
      var kept, e := WithoutCleanups(h[..|h| - 1]), h[|h| - 1];
      CleanupsAcceptNothing(lim, h[..|h| - 1], key);
      if e.Check? {
        assert (kept + [e])[..|kept|] == kept;
      }
    }
  }

  lemma {:induction false} WithoutCleanupsMonotone(h: seq<Event>, now: Time)
    requires Monotone(h, now)
    ensures Monotone(WithoutCleanups(h), now)
    decreases |h|
  {
    if h != [] {
      WithoutCleanupsMonotone(h[..|h| - 1], h[|h| - 1].at);
    }
  }

  /** Cleanups never change an answer. */
  lemma {:induction false} CleanupsInvisible(lim: Limits, h: seq<Event>, key: string, now: Time)
    requires Monotone(h, now)
    ensures Allowed(lim, Run(lim, h), key, now) <==> Allowed(lim, Run(lim, WithoutCleanups(h)), key, now)
  {
    CleanupsAcceptNothing(lim, h, key);
    WithoutCleanupsMonotone(h, now);
    AllowedIff(lim, h, key, now);
    AllowedIff(lim, WithoutCleanups(h), key, now);
  }

  /** How many of `times` are after `start`, up to `end`. */
  function Between(times: seq<Time>, start: Time, end: Time): nat {
    if times == [] then 0
    else
      var t := times[|times| - 1];
      Between(times[..|times| - 1], start, end) + if start < t <= end then 1 else 0
  }

  lemma {:induction false} BetweenPush(times: seq<Time>, t: Time, kept: bool, start: Time, end: Time)
    ensures Between(times + If(kept, t), start, end)
         == Between(times, start, end) + if kept && start < t <= end then 1 else 0
  {
    if kept {
      assert (times + [t])[..|times|] == times;
    } else {
      assert times + [] == times;
    }
  }

  lemma {:induction false} BetweenAtMostLater(times: seq<Time>, cutoff: Time, start: Time, end: Time)
    requires cutoff <= start
    ensures Between(times, start, end) <= |Later(times, cutoff)|
    decreases |times|
  {
    if times != [] {
      BetweenAtMostLater(times[..|times| - 1], cutoff, start, end);
    }
  }

  /** In every interval as long as the window at most the maximum is let through. */
  lemma {:induction false} AtMostMaximum(lim: Limits, h: seq<Event>, key: string, start: Time)
    ensures Between(Accepted(lim, h, key), start, start + lim.window) <= lim.maxRequests
    decreases |h|
  {
    if h != [] {
      var times, e := Accepted(lim, h[..|h| - 1], key), h[|h| - 1];
      AtMostMaximum(lim, h[..|h| - 1], key, start);
      LaterCounts(times, e.at - lim.window);
      PushBounded(lim, times, e.at, Counts(lim, e, key, times), start);
    }
  }

  lemma {:induction false} PushBounded(lim: Limits, times: seq<Time>, t: Time, kept: bool, start: Time)
    requires Between(times, start, start + lim.window) <= lim.maxRequests
    requires kept ==> |Pruned(lim, times, t)| < lim.maxRequests
    ensures Between(times + If(kept, t), start, start + lim.window) <= lim.maxRequests
  {
    BetweenPush(times, t, kept, start, start + lim.window);
    if kept && start < t <= start + lim.window {
      BetweenAtMostLater(times, t - lim.window, start, start + lim.window);
    }
  }
}

module RateLimiting {
  import opened Prelude
  import opened RateLimits

  class RateLimiter {
    const lim: Limits
    var entries: Entries

    constructor (maxRequests: nat, window: nat)
      ensures lim == Limits(maxRequests, window) && entries == Run(lim, [])
    {
      lim, entries := Limits(maxRequests, window), map[];
    }

    method Check(key: string, now: Time) returns (ok: bool)
      modifies this
      ensures entries == Step(lim, old(entries), RateLimits.Check(key, now))
      ensures ok == Allowed(lim, old(entries), key, now)
    {
      var entry := Retain(TimesOf(entries, key), now - lim.window);
      if |entry| >= lim.maxRequests {
        assert entry + [] == entry;
        entries := entries[key := entry];
        return false;
      }
      entries := entries[key := entry + [now]];
      ok := true;
    }

    method Cleanup(now: Time)
      modifies this
      ensures entries == Step(lim, old(entries), RateLimits.Cleanup(now))
    {
      entries := map k | k in entries && Pruned(lim, entries[k], now) != [] :: Pruned(lim, entries[k], now);
    }
  }

  method Retain(times: seq<Time>, cutoff: Time) returns (kept: seq<Time>)
    ensures kept == Later(times, cutoff)
  {
    kept := [];
    for i := 0 to |times|
      invariant kept == Later(times[..i], cutoff)
    {
      assert times[..i + 1][..i] == times[..i];
      if times[i] > cutoff {
        kept := kept + [times[i]];
      }
    }
    assert times[..|times|] == times;
  }
}
