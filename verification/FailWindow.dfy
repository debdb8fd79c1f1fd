/** The failure window against the full history of observations. */
module FailWindow {
  import opened Prelude
  import opened Numbers
  import opened Failures

  datatype Event =
    | Observation(m: MatchResult, clock: int)
    | Forget(mlfid: string)
    | Removal(host: string)
    | Purging(clock: int)

  type History = seq<Event>

  function Step(config: FailConfig, s: FailState, e: Event): FailState {
    match e
    case Observation(m, clock) => AddFailure(config, s, m, clock).0
    case Forget(mlfid) => ForgetMlfid(s, mlfid)
    case Removal(host) => Remove(s, host)
    case Purging(clock) => Purge(config, s, clock)
  }

  /** The manager after a history. */
  function Run(config: FailConfig, h: History): FailState {
    if h == [] then FailState(map[], map[])
    else Step(config, Run(config, h[..|h| - 1]), h[|h| - 1])
  }

  lemma {:induction false} RunStep(config: FailConfig, front: History, e: Event)
    ensures Run(config, front + [e]) == Step(config, Run(config, front), e)
  {
    assert (front + [e])[..|front|] == front;
  }

  function TimesOf(s: FailState, host: string): seq<int> {
    if host in s.tickets then s.tickets[host].times else []
  }

  // ---- The window, from the history alone ----

  /** The host of the first observation with this MLFID since it was last forgotten. */
  function Bound(h: History, mlfid: string): Option<string> {
    if h == [] then None
    else
      var earlier := Bound(h[..|h| - 1], mlfid);
      match h[|h| - 1]
      case Forget(id) => if id == mlfid then None else earlier
      case Observation(m, _) => if m.mlfid == Some(mlfid) && earlier.None? then Some(m.host) else earlier
      case _ => earlier
  }

  predicate IsObservation(h: History, i: int) {
    0 <= i < |h| && h[i].Observation?
  }

  /** The host that observation `i` counts for. */
  function HostAt(h: History, i: int): string
    requires IsObservation(h, i)
  {
    var m := h[i].m;
    if m.mlfid.Some? && Bound(h[..i], m.mlfid.value).Some? then Bound(h[..i], m.mlfid.value).value else m.host
  }

  function TimeAt(h: History, i: int): int
    requires IsObservation(h, i)
  {
    TimeOf(h[i].m, h[i].clock)
  }

  /** Observation `i` is a failure of `host`. */
  predicate Failure(h: History, host: string, i: int) {
    IsObservation(h, i) && HostAt(h, i) == host && !h[i].m.nofail && !h[i].m.mlfgained
  }

  /** Event `j` starts the count of `host` afresh: a success, a removal, or a
      purge that finds no failure recent enough. */
  ghost predicate Resets(config: FailConfig, h: History, host: string, j: int)
    requires 0 <= j < |h|
    decreases j, 1
  {
    match h[j]
    case Observation(m, _) => m.mlfgained && HostAt(h, j) == host
    case Removal(removed) => removed == host
    case Purging(clock) =>
      forall i :: 0 <= i < j && LiveIn(config, h, host, i, j) ==> TimeAt(h, i) < clock - config.findtime
    case Forget(_) => false
  }

  /** Failure `i` still counts after the first `n` events: no event since it
      was a reset, and it was not too old for any later observation of its host. */
  ghost predicate LiveIn(config: FailConfig, h: History, host: string, i: int, n: int)
    requires 0 <= n <= |h|
    decreases n, 0
  {
    && i < n && Failure(h, host, i)
    && forall j :: i < j < n ==>
         && !Resets(config, h, host, j)
         && (IsObservation(h, j) && HostAt(h, j) == host ==> TimeAt(h, i) >= TimeAt(h, j) - config.findtime)
  }

  /** The times of the live failures among the first `k` events, in order. */
  ghost function LiveTimes(config: FailConfig, h: History, host: string, k: nat, n: nat): seq<int>
    requires k <= n <= |h|
  {
    if k == 0 then []
    else
      LiveTimes(config, h, host, k - 1, n)
      + if LiveIn(config, h, host, k - 1, n) then [TimeAt(h, k - 1)] else []
  }

  // ---- The manager keeps exactly that window ----

  lemma {:induction false} MlfidsAreBound(config: FailConfig, h: History, n: nat)
    requires n <= |h|
    ensures forall id :: Get(Run(config, h[..n]).mlfids, id) == Bound(h[..n], id)
  {
    if n > 0 {
      MlfidsAreBound(config, h, n - 1);
      assert h[..n][..n - 1] == h[..n - 1];
    }
  }

  lemma {:induction false} HostAgrees(config: FailConfig, h: History, i: int)
    requires IsObservation(h, i)
    ensures HostFor(Run(config, h[..i]).mlfids, h[i].m) == HostAt(h, i)
  {
    MlfidsAreBound(config, h, i);
    if h[i].m.mlfid.Some? {
      var id := h[i].m.mlfid.value;
      assert Get(Run(config, h[..i]).mlfids, id) == Bound(h[..i], id);
    }
  }

  lemma {:induction false} RetainAppend(times: seq<int>, t: int, cutoff: int)
    ensures Retain(times + [t], cutoff) == Retain(times, cutoff) + if t >= cutoff then [t] else []
  {
    assert (times + [t])[..|times|] == times;
  }

  /** Whether a failure outlives one more event. */
  predicate Outlives(config: FailConfig, h: History, host: string, i: int, n: int)
    requires IsObservation(h, i) && n < |h|
  {
    IsObservation(h, n) && HostAt(h, n) == host ==> TimeAt(h, i) >= TimeAt(h, n) - config.findtime
  }

  lemma {:induction false} LiveStep(config: FailConfig, h: History, host: string, i: int, n: int)
    requires 0 <= i < n < |h|
    ensures LiveIn(config, h, host, i, n + 1) <==>
            LiveIn(config, h, host, i, n) && !Resets(config, h, host, n) && Outlives(config, h, host, i, n)
  {
  }

  /** One more event that resets nothing retains the live times it allows. */
  lemma {:induction false} LiveTimesRetained(config: FailConfig, h: History, host: string, k: nat, n: nat)
    requires k <= n < |h|
    ensures LiveTimes(config, h, host, k, n + 1) ==
            if Resets(config, h, host, n) then []
            else if IsObservation(h, n) && HostAt(h, n) == host
            then Retain(LiveTimes(config, h, host, k, n), TimeAt(h, n) - config.findtime)
            else LiveTimes(config, h, host, k, n)
  {
    if k > 0 {
      var i := k - 1;
      LiveTimesRetained(config, h, host, i, n);
      LiveStep(config, h, host, i, n);
      var before, after := LiveTimes(config, h, host, i, n), LiveTimes(config, h, host, i, n + 1);
      assert before + [] == before && after + [] == after;
      if LiveIn(config, h, host, i, n) && IsObservation(h, n) && HostAt(h, n) == host {
        RetainAppend(before, TimeAt(h, i), TimeAt(h, n) - config.findtime);
      }
    }
  }

  lemma {:induction false} LiveTimesMember(config: FailConfig, h: History, host: string, k: nat, n: nat, t: int)
    requires k <= n <= |h|
    ensures t in LiveTimes(config, h, host, k, n) <==>
            exists i :: 0 <= i < k && LiveIn(config, h, host, i, n) && TimeAt(h, i) == t
  {
    if k > 0 {
      LiveTimesMember(config, h, host, k - 1, n, t);
      if t in LiveTimes(config, h, host, k, n) && t !in LiveTimes(config, h, host, k - 1, n) {
        assert LiveIn(config, h, host, k - 1, n) && TimeAt(h, k - 1) == t;
      }
    }
  }

  lemma {:induction false} PurgeAgrees(config: FailConfig, h: History, host: string, n: nat)
    requires n < |h| && h[n].Purging?
    ensures Resets(config, h, host, n) <==>
            !SomeSince(LiveTimes(config, h, host, n, n), h[n].clock - config.findtime)
  {
    var times, cutoff := LiveTimes(config, h, host, n, n), h[n].clock - config.findtime;
    forall i | 0 <= i < n && LiveIn(config, h, host, i, n)
      ensures TimeAt(h, i) in times
    {
      LiveTimesMember(config, h, host, n, n, TimeAt(h, i));
    }
    if SomeSince(times, cutoff) {
      var i :| 0 <= i < |times| && times[i] >= cutoff;
      LiveTimesMember(config, h, host, n, n, times[i]);
    }
  }

  /** What one event does to the times of a host. */
  function TimesAfter(config: FailConfig, s: FailState, e: Event, host: string): seq<int> {
    var times := TimesOf(s, host);
    match e
    case Observation(m, clock) =>
      if HostFor(s.mlfids, m) != host then times
      else if m.mlfgained then []
      else
        var now := TimeOf(m, clock);
        Retain(times, now - config.findtime) + if m.nofail then [] else [now]
    case Forget(_) => times
    case Removal(removed) => if removed == host then [] else times
    case Purging(clock) => if SomeSince(times, clock - config.findtime) then times else []
  }

  lemma {:induction false} StepTimes(config: FailConfig, s: FailState, e: Event, host: string)
    ensures TimesOf(Step(config, s, e), host) == TimesAfter(config, s, e, host)
  {
    if e.Observation? && HostFor(s.mlfids, e.m) == host {
      var before := if host in s.tickets then s.tickets[host] else NewTicket(host, e.m);
      assert before.times == TimesOf(s, host);
      var kept := Retain(before.times, TimeOf(e.m, e.clock) - config.findtime);
      assert kept + [] == kept;
    }
  }

  lemma {:induction false} WindowStep(config: FailConfig, h: History, host: string, last: nat)
    requires last < |h|
    requires TimesOf(Run(config, h[..last]), host) == LiveTimes(config, h, host, last, last)
    ensures TimesAfter(config, Run(config, h[..last]), h[last], host) ==
            LiveTimes(config, h, host, last + 1, last + 1)
  {
    LiveTimesRetained(config, h, host, last, last);
    if h[last].Observation? {
      HostAgrees(config, h, last);
    } else if h[last].Purging? {
      PurgeAgrees(config, h, host, last);
    }
  }

  /** A host's times are exactly its live failures, in order. */
  lemma {:induction false} WindowIsHistory(config: FailConfig, h: History, host: string, n: nat)
    requires n <= |h|
    ensures TimesOf(Run(config, h[..n]), host) == LiveTimes(config, h, host, n, n)
  {
    if n > 0 {
      var last := n - 1;
      WindowIsHistory(config, h, host, last);
      WindowStep(config, h, host, last);
      StepTimes(config, Run(config, h[..last]), h[last], host);
      RunStep(config, h[..last], h[last]);
      assert h[..n] == h[..last] + [h[last]];
    }
  }

  /** An observation triggers exactly when it is a failure and enough live
      failures, itself among them, are left; it reports those. */
  lemma {:induction false} TriggersOnLiveFailures(config: FailConfig, h: History, i: nat)
    requires IsObservation(h, i)
    ensures var r := AddFailure(config, Run(config, h[..i]), h[i].m, h[i].clock).1;
            var live := LiveTimes(config, h, HostAt(h, i), i + 1, i + 1);
            && (r.Some? <==> Failure(h, HostAt(h, i), i) && |live| % U32 >= config.maxretry)
            && (r.Some? ==> r.value.times == live)
  {
    HostAgrees(config, h, i);
    WindowIsHistory(config, h, HostAt(h, i), i + 1);
    assert h[..i + 1][..i] == h[..i];
  }

  // ---- Purging is invisible ----

  /** The history without its purges. */
  function Unpurged(h: History): History {
    if h == [] then []
    else Unpurged(h[..|h| - 1]) + if h[|h| - 1].Purging? then [] else [h[|h| - 1]]
  }

  lemma {:induction false} UnpurgedStep(front: History, e: Event)
    ensures Unpurged(front + [e]) == if e.Purging? then Unpurged(front) else Unpurged(front) + [e]
  {
    assert (front + [e])[..|front|] == front;
    assert Unpurged(front) + [] == Unpurged(front);
  }

  /** No observation is stamped earlier than a purge that came before it. */
  ghost predicate StampedAfterPurges(h: History) {
    forall p, j :: 0 <= p < j < |h| && h[p].Purging? && h[j].Observation? ==> TimeAt(h, j) >= h[p].clock
  }

  /** Equal windows, or one that a purge at or before `clock` emptied. */
  predicate SameWindow(config: FailConfig, s: FailState, u: FailState, host: string, clocks: set<int>) {
    TimesOf(s, host) == TimesOf(u, host)
    || (TimesOf(s, host) == [] && exists c :: c in clocks && !SomeSince(TimesOf(u, host), c - config.findtime))
  }

  function PurgeClocks(h: History): set<int> {
    set i | 0 <= i < |h| && h[i].Purging? :: h[i].clock
  }

  lemma {:induction false} RetainNone(times: seq<int>, low: int, high: int)
    requires !SomeSince(times, low) && low <= high
    ensures Retain(times, high) == []
  {
    if times != [] {
      RetainNone(times[..|times| - 1], low, high);
    }
  }

  /** One event on both sides; a purge only where there are purges. */
  lemma {:induction false} SameWindowStep(config: FailConfig, s: FailState, u: FailState, e: Event, host: string,
                                          clocks: set<int>)
    requires s.mlfids == u.mlfids && SameWindow(config, s, u, host, clocks)
    requires e.Observation? ==> forall c :: c in clocks ==> TimeOf(e.m, e.clock) >= c
    ensures !e.Purging? ==> SameWindow(config, Step(config, s, e), Step(config, u, e), host, clocks)
    ensures e.Purging? ==> SameWindow(config, Step(config, s, e), u, host, clocks + {e.clock})
  {
    StepTimes(config, s, e, host);
    StepTimes(config, u, e, host);
    if TimesOf(s, host) != TimesOf(u, host) {
      var c :| c in clocks && !SomeSince(TimesOf(u, host), c - config.findtime);
      if e.Observation? {
        RetainNone(TimesOf(u, host), c - config.findtime, TimeOf(e.m, e.clock) - config.findtime);
      } else if e.Purging? {
        assert c in clocks + {e.clock};
      }
    } else if e.Purging? {
      assert e.clock in clocks + {e.clock};
    }
  }

  lemma StampedAfter(h: History, front: History, e: Event)
    requires h == front + [e] && StampedAfterPurges(h)
    ensures StampedAfterPurges(front)
    ensures e.Observation? ==> forall c :: c in PurgeClocks(front) ==> TimeOf(e.m, e.clock) >= c
    ensures PurgeClocks(h) == PurgeClocks(front) + if e.Purging? then {e.clock} else {}
  {
    assert h[|front|] == e;
    forall p, j | 0 <= p < j < |front| && front[p].Purging? && front[j].Observation?
      ensures TimeAt(front, j) >= front[p].clock
    {
      assert h[p] == front[p] && h[j] == front[j] && TimeAt(h, j) >= h[p].clock;
    }
    forall c | c in PurgeClocks(front)
      ensures c in PurgeClocks(h) && (e.Observation? ==> TimeOf(e.m, e.clock) >= c)
    {
      var p :| 0 <= p < |front| && front[p].Purging? && front[p].clock == c;
      assert h[p] == front[p];
      assert e.Observation? ==> TimeAt(h, |front|) >= h[p].clock;
    }
    forall c | c in PurgeClocks(h)
      ensures c in PurgeClocks(front) || (e.Purging? && c == e.clock)
    {
      var p :| 0 <= p < |h| && h[p].Purging? && h[p].clock == c;
      if p < |front| {
        assert front[p] == h[p];
      }
    }
  }

  lemma {:induction false} PurgesSimulated(config: FailConfig, h: History, host: string)
    requires StampedAfterPurges(h)
    ensures Run(config, h).mlfids == Run(config, Unpurged(h)).mlfids
    ensures SameWindow(config, Run(config, h), Run(config, Unpurged(h)), host, PurgeClocks(h))
  {
    if h != [] {
      var front, e := h[..|h| - 1], h[|h| - 1];
      StampedAfter(h, front, e);
      PurgesSimulated(config, front, host);
      SameWindowStep(config, Run(config, front), Run(config, Unpurged(front)), e, host, PurgeClocks(front));
      assert h == front + [e];
      RunStep(config, front, e);
      UnpurgedStep(front, e);
      if !e.Purging? {
        RunStep(config, Unpurged(front), e);
      }
    }
  }

  /** With and without purges, an observation triggers at the same points and
      reports the same times of the same host. */
  lemma {:induction false} PurgeInvisible(config: FailConfig, h: History, m: MatchResult, clock: int)
    requires StampedAfterPurges(h + [Observation(m, clock)])
    ensures var purged := AddFailure(config, Run(config, h), m, clock).1;
            var unpurged := AddFailure(config, Run(config, Unpurged(h)), m, clock).1;
            && (purged.Some? <==> unpurged.Some?)
            && (purged.Some? ==> purged.value.host == unpurged.value.host && purged.value.times == unpurged.value.times)
  {
    var e := Observation(m, clock);
    StampedAfter(h + [e], h, e);
    var host := HostFor(Run(config, h).mlfids, m);
    FiledUnderHost(config, h);
    FiledUnderHost(config, Unpurged(h));
    PurgesSimulated(config, h, host);
    PurgesSimulated(config, h + [e], host);
    SameObservation(config, Run(config, h), Run(config, Unpurged(h)), m, clock, PurgeClocks(h));
  }

  lemma {:induction false} SameObservation(config: FailConfig, s: FailState, u: FailState, m: MatchResult, clock: int,
                                           clocks: set<int>)
    requires s.mlfids == u.mlfids && SameWindow(config, s, u, HostFor(s.mlfids, m), clocks)
    requires forall c :: c in clocks ==> TimeOf(m, clock) >= c
    ensures var purged, unpurged := AddFailure(config, s, m, clock).1, AddFailure(config, u, m, clock).1;
            && (purged.Some? <==> unpurged.Some?)
            && (purged.Some? ==> purged.value.times == unpurged.value.times)
  {
    var host := HostFor(s.mlfids, m);
    if TimesOf(s, host) != TimesOf(u, host) {
      var c :| c in clocks && !SomeSince(TimesOf(u, host), c - config.findtime);
      RetainNone(TimesOf(u, host), c - config.findtime, TimeOf(m, clock) - config.findtime);
    }
  }

  /** Every ticket is filed under its own host. */
  lemma {:induction false} FiledUnderHost(config: FailConfig, h: History)
    ensures forall host :: host in Run(config, h).tickets ==> Run(config, h).tickets[host].host == host
  {
    if h != [] {
      FiledUnderHost(config, h[..|h| - 1]);
    }
  }

  function RunFrom(config: FailConfig, s: FailState, h: History): FailState
    decreases |h|
  {
    if h == [] then s else RunFrom(config, Step(config, s, h[0]), h[1..])
  }

  /** No event of `h`, after `s`, concerns `host` or is a purge. */
  predicate Quiet(config: FailConfig, s: FailState, h: History, host: string)
    decreases |h|
  {
    h == []
    || ((match h[0]
         case Observation(m, _) => HostFor(s.mlfids, m) != host
         case Removal(removed) => removed != host
         case Forget(_) => true
         case Purging(_) => false)
        && Quiet(config, Step(config, s, h[0]), h[1..], host))
  }

  lemma {:induction false} QuietKeeps(config: FailConfig, s: FailState, u: FailState, h: History, host: string)
    requires s.mlfids == u.mlfids && Quiet(config, s, h, host)
    ensures RunFrom(config, s, h).mlfids == RunFrom(config, u, h).mlfids
    ensures TimesOf(RunFrom(config, s, h), host) == TimesOf(s, host)
    ensures TimesOf(RunFrom(config, u, h), host) == TimesOf(u, host)
    decreases |h|
  {
    if h != [] {
      StepTimes(config, s, h[0], host);
      StepTimes(config, u, h[0], host);
      QuietKeeps(config, Step(config, s, h[0]), Step(config, u, h[0]), h[1..], host);
    }
  }

  /** A purge shows at the next observation of a host, whatever other hosts did
      in between, exactly when it dropped the host's ticket and the ticket held
      a time that the observation would still have counted. */
  lemma {:induction false} PurgeVisibleIff(config: FailConfig, s: FailState, purge: int, between: History,
                                           m: MatchResult, clock: int, host: string)
    requires Quiet(config, s, between, host) && host == HostFor(RunFrom(config, s, between).mlfids, m)
    ensures (TimesOf(Step(config, RunFrom(config, Purge(config, s, purge), between), Observation(m, clock)), host)
             != TimesOf(Step(config, RunFrom(config, s, between), Observation(m, clock)), host)) <==>
              && !m.mlfgained
              && !SomeSince(TimesOf(s, host), purge - config.findtime)
              && SomeSince(TimesOf(s, host), TimeOf(m, clock) - config.findtime)
  {
    QuietKeeps(config, s, Purge(config, s, purge), between, host);
    PurgeVisibleAtOnce(config, s, purge, RunFrom(config, s, between), RunFrom(config, Purge(config, s, purge), between),
                       m, clock, host);
  }

  lemma {:induction false} PurgeVisibleAtOnce(config: FailConfig, s: FailState, purge: int, kept: FailState, purged: FailState,
                                              m: MatchResult, clock: int, host: string)
    requires host == HostFor(kept.mlfids, m) == HostFor(purged.mlfids, m)
    requires TimesOf(kept, host) == TimesOf(s, host) && TimesOf(purged, host) == TimesOf(Purge(config, s, purge), host)
    ensures (TimesOf(Step(config, purged, Observation(m, clock)), host)
             != TimesOf(Step(config, kept, Observation(m, clock)), host)) <==>
              && !m.mlfgained
              && !SomeSince(TimesOf(s, host), purge - config.findtime)
              && SomeSince(TimesOf(s, host), TimeOf(m, clock) - config.findtime)
  {
    StepTimes(config, kept, Observation(m, clock), host);
    StepTimes(config, purged, Observation(m, clock), host);
    RetainsSome(TimesOf(s, host), TimeOf(m, clock) - config.findtime);
  }

  lemma {:induction false} RetainsSome(times: seq<int>, cutoff: int)
    ensures Retain(times, cutoff) != [] <==> SomeSince(times, cutoff)
  {
    if times != [] {
      var front, last := times[..|times| - 1], times[|times| - 1];
      RetainsSome(front, cutoff);
      if SomeSince(front, cutoff) {
        var i :| 0 <= i < |front| && front[i] >= cutoff;
        assert times[i] >= cutoff;
      }
      if SomeSince(times, cutoff) && last < cutoff {
        var i :| 0 <= i < |times| && times[i] >= cutoff;
        assert front[i] >= cutoff;
      }
    }
  }

  lemma {:induction false} TriggersOnTimes(config: FailConfig, s: FailState, m: MatchResult, clock: int)
    ensures AddFailure(config, s, m, clock).1.Some? <==>
            Triggers(config, m, TimesAfter(config, s, Observation(m, clock), HostFor(s.mlfids, m)))
  {
    StepTimes(config, s, Observation(m, clock), HostFor(s.mlfids, m));
  }

  /** A single failure at time 0. */
  lemma {:induction false} OneFailure(config: FailConfig, m: MatchResult)
    requires m.host == "h" && m.mlfid.None? && !m.nofail && !m.mlfgained && m.timestamp == Some(0)
    ensures TimesOf(Run(config, [Observation(m, 0)]), "h") == [0]
  {
    var one := [Observation(m, 0)];
    assert one[..0] == [];
    StepTimes(config, Run(config, []), one[0], "h");
  }

  /** An observation stamped before an earlier purge may see the difference:
      two failures five seconds apart, the second one read after a purge. */
  lemma {:induction false} LateStampsSeePurges(config: FailConfig, m: MatchResult, late: MatchResult,
                                               one: History, two: History)
    requires config.maxretry == 2 && config.findtime == 10
    requires m.host == "h" && m.mlfid.None? && !m.nofail && !m.mlfgained && m.timestamp == Some(0)
    requires late == m.(timestamp := Some(5))
    requires one == [Observation(m, 0)] && two == one + [Purging(100)]
    ensures AddFailure(config, Run(config, two), late, 100).1.None?
    ensures AddFailure(config, Run(config, one), late, 100).1.Some?
  {
    OneFailure(config, m);
    RunStep(config, one, Purging(100));
    StepTimes(config, Run(config, one), Purging(100), "h");
    SecondFailure(config, Run(config, one), late);
    SecondFailure(config, Run(config, two), late);
  }

  lemma {:induction false} SecondFailure(config: FailConfig, s: FailState, late: MatchResult)
    requires config.maxretry == 2 && config.findtime == 10
    requires late.host == "h" && late.mlfid.None? && !late.nofail && !late.mlfgained && late.timestamp == Some(5)
    requires TimesOf(s, "h") == [0] || TimesOf(s, "h") == []
    ensures AddFailure(config, s, late, 100).1.Some? <==> TimesOf(s, "h") == [0]
  {
    TriggersOnTimes(config, s, late, 100);
    assert [0][..0] == [] && Retain([0], -5) == [0] && Retain([], -5) == [];
  }
}
