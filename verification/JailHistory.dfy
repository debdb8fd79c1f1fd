/**
 Every jail's failure counts are those of its own history of observations, in
 whatever system it runs.
 */
module JailHistory {
  import opened Prelude
  import opened Numbers
  import opened Failures
  import opened BanManager
  import opened JailTask
  import opened Lifecycle
  import opened Coverage
  import T = BanTables
  import W = FailWindow

  // ---- What each iteration adds to the history ----

  /** The match with what resolving its host gives. */
  function Resolved(config: JailConfig, m: MatchResult, inputs: Inputs): MatchResult {
    if m.ip.None? && m.host != "" && (config.usedns == "yes" || config.usedns == "warn")
    then m.(ip := inputs.resolved) else m
  }

  /** The line is not passed over before it is counted. */
  predicate IsCounted(config: JailConfig, m: MatchResult) {
    !m.mlfforget && (m.ip.Some? || m.host == "" || config.usedns != "no")
  }

  /** An observation, and the removal of its ticket when it triggers and the jail lives on. */
  function ObservationEvents(config: FailConfig, fails: FailState, m: MatchResult, clock: int, removed: bool): W.History {
    var triggered := AddFailure(config, fails, m, clock).1;
    [W.Observation(m, clock)] + if triggered.Some? && removed then [W.Removal(triggered.value.host)] else []
  }

  function LineEvents(config: JailConfig, w: Work, db: T.Tables, m: MatchResult, inputs: Inputs): W.History {
    if m.mlfforget then (if m.mlfid.Some? then [W.Forget(m.mlfid.value)] else [])
    else if !IsCounted(config, m) then []
    else
      ObservationEvents(config.fail, w.fails, Resolved(config, m, inputs), inputs.clock,
                        inputs.ignored || Duration(Bantime(config, db, m.host, inputs.random)).Some?)
  }

  function PurgeEvents(w: Work, inputs: Inputs): W.History {
    if AllHaveExpiry(w.bans) then [W.Purging(inputs.clock)] else []
  }

  function CommandEvents(config: JailConfig, w: Work, db: T.Tables, command: Command, inputs: Inputs): W.History {
    match command
    case Attempt(ip, _) =>
      ObservationEvents(config.fail, w.fails, AttemptMatch(ip, inputs), inputs.clock,
                        Duration(Bantime(config, db, ip, inputs.random)).Some?)
    case Stop => PurgeEvents(w, inputs)
    case _ => []
  }

  /** Going through at most two events. */
  function Through(config: FailConfig, s: FailState, events: W.History): FailState
    requires |events| <= 2
  {
    if events == [] then s
    else if |events| == 1 then W.Step(config, s, events[0])
    else W.Step(config, W.Step(config, s, events[0]), events[1])
  }

  lemma {:induction false} LineGoesThrough(config: JailConfig, w: Work, db: T.Tables, m: MatchResult, inputs: Inputs)
    ensures |LineEvents(config, w, db, m, inputs)| <= 2
    ensures ProcessLine(config, w, db, m, inputs).fails == Through(config.fail, w.fails, LineEvents(config, w, db, m, inputs))
  {
  }

  lemma {:induction false} CommandGoesThrough(config: JailConfig, w: Work, db: T.Tables, command: Command, inputs: Inputs)
    ensures |CommandEvents(config, w, db, command, inputs)| <= 2
    ensures Obey(config, w, db, command, inputs).fails == Through(config.fail, w.fails, CommandEvents(config, w, db, command, inputs))
  {
  }

  lemma {:induction false} RunThrough(config: FailConfig, h: W.History, events: W.History)
    requires |events| <= 2
    ensures W.Run(config, h + events) == Through(config, W.Run(config, h), events)
  {
    if events == [] {
      assert h + events == h;
    } else {
      W.RunStep(config, h, events[0]);
      if |events| == 2 {
        W.RunStep(config, h + [events[0]], events[1]);
        assert h + events == h + [events[0]] + [events[1]];
      } else {
        assert h + events == h + [events[0]];
      }
    }
  }

  // ---- The history of a jail in a run ----

  /** What an action adds to the history of `jail`. */
  function EventsOf(s: System, a: Action, jail: string): W.History {
    if jail !in s.tasks then []
    else
      var t := s.tasks[jail];
      match a
      case Line(j, m, inputs) => if j == jail then LineEvents(t.config, t.work, s.db, m, inputs) else []
      case Tick(j, inputs) => if j == jail then PurgeEvents(t.work, inputs) else []
      case Receive(j, inputs) =>
        if j == jail && t.queue != [] then CommandEvents(t.config, t.work, s.db, t.queue[0], inputs) else []
      case _ => []
  }

  function HistoryAfter(h: W.History, s: System, a: Action, jail: string): W.History {
    if a.StartJail? && a.config.name == jail then [] else h + EventsOf(s, a, jail)
  }

  /** All that `jail` has observed since it was started, `h` before the run. */
  ghost function History(h: W.History, s: System, actions: seq<Action>, jail: string): W.History
    requires IsRun(s, actions)
    decreases |actions|
  {
    if actions == [] then h else History(HistoryAfter(h, s, actions[0], jail), Next(s, actions[0]), actions[1..], jail)
  }

  ghost predicate Follows(h: W.History, s: System, jail: string) {
    jail in s.tasks ==> s.tasks[jail].work.fails == W.Run(s.tasks[jail].config.fail, h)
  }

  lemma {:induction false} LineFollows(h: W.History, config: JailConfig, w: Work, db: T.Tables, m: MatchResult, inputs: Inputs)
    requires w.fails == W.Run(config.fail, h)
    ensures ProcessLine(config, w, db, m, inputs).fails == W.Run(config.fail, h + LineEvents(config, w, db, m, inputs))
  {
    LineGoesThrough(config, w, db, m, inputs);
    RunThrough(config.fail, h, LineEvents(config, w, db, m, inputs));
  }

  lemma {:induction false} CommandFollows(h: W.History, config: JailConfig, w: Work, db: T.Tables, command: Command, inputs: Inputs)
    requires w.fails == W.Run(config.fail, h)
    ensures Obey(config, w, db, command, inputs).fails == W.Run(config.fail, h + CommandEvents(config, w, db, command, inputs))
  {
    CommandGoesThrough(config, w, db, command, inputs);
    RunThrough(config.fail, h, CommandEvents(config, w, db, command, inputs));
  }

  lemma {:induction false} NextFollows(h: W.History, s: System, a: Action, jail: string)
    requires Follows(h, s, jail) && Enabled(s, a)
    ensures Follows(HistoryAfter(h, s, a, jail), Next(s, a), jail)
  {
    if jail in s.tasks {
      var t := s.tasks[jail];
      assert h + [] == h;
      match a {
        case Line(_, m, inputs) => LineFollows(h, t.config, t.work, s.db, m, inputs);
        case Tick(_, inputs) => CommandFollows(h, t.config, t.work, s.db, Stop, inputs);
        case Receive(j, inputs) =>
          if j == jail {
            CommandFollows(h, t.config, t.work, s.db, t.queue[0], inputs);
          }
        case _ =>
      }
    }
  }

  /** In every reachable system each jail's failures are the window of its own
      history, whatever the other tasks did. */
  lemma {:induction false} FailsAreHistory(h: W.History, s: System, actions: seq<Action>, jail: string)
    requires Follows(h, s, jail) && IsRun(s, actions)
    ensures Follows(History(h, s, actions, jail), Run(s, actions), jail)
    decreases |actions|
  {
    if actions != [] {
      NextFollows(h, s, actions[0], jail);
      FailsAreHistory(HistoryAfter(h, s, actions[0], jail), Next(s, actions[0]), actions[1..], jail);
    }
  }

  /** From the start of the system, a line that is counted wants a ban exactly
      when it is a failure, the ignore checks let it through, and the failures
      of its host that are still live in the jail's history, itself among them,
      reach the threshold. */
  lemma {:induction false} BansOnLiveFailures(db: T.Tables, actions: seq<Action>, jail: string, m: MatchResult, inputs: Inputs)
    requires IsRun(System(db, map[], []), actions)
    requires var s := Run(System(db, map[], []), actions);
             Enabled(s, Line(jail, m, inputs)) && IsCounted(s.tasks[jail].config, m)
    ensures var s := Run(System(db, map[], []), actions);
            var config := s.tasks[jail].config;
            var before := History([], System(db, map[], []), actions, jail);
            var h := before + [W.Observation(Resolved(config, m, inputs), inputs.clock)];
            var host := W.HostAt(h, |before|);
            var live := W.LiveTimes(config.fail, h, host, |h|, |h|);
            var after := Next(s, Line(jail, m, inputs)).tasks[jail].work;
            after.todo != [] || after.dead <==>
              W.Failure(h, host, |before|) && !inputs.ignored && |live| >= Threshold(config.fail)
  {
    var start := System(db, map[], []);
    var s := Run(start, actions);
    HostsStayBelow(start, actions);
    FailsAreHistory([], start, actions, jail);
    LineBansOnLive(s.tasks[jail].config, s.tasks[jail].work, s.db, m, inputs, History([], start, actions, jail));
  }

  lemma {:induction false} LineBansOnLive(config: JailConfig, w: Work, db: T.Tables, m: MatchResult, inputs: Inputs,
                                          before: W.History)
    requires FailsBelow(config.fail, w.fails) && config.fail.maxretry < U32 && w.todo == [] && !w.dead
    requires IsCounted(config, m) && w.fails == W.Run(config.fail, before)
    ensures var h := before + [W.Observation(Resolved(config, m, inputs), inputs.clock)];
            var host := W.HostAt(h, |before|);
            var live := W.LiveTimes(config.fail, h, host, |h|, |h|);
            var after := ProcessLine(config, w, db, m, inputs);
            after.todo != [] || after.dead <==>
              W.Failure(h, host, |before|) && !inputs.ignored && |live| >= Threshold(config.fail)
  {
    var observed := Resolved(config, m, inputs);
    var host := HostFor(w.fails.mlfids, m);
    LiveAreCounted(config.fail, w.fails, observed, inputs.clock, before, before + [W.Observation(observed, inputs.clock)]);
    BansAtThreshold(config, w, db, m, inputs);
    SameTimes(config.fail, w.fails, m, observed, inputs.clock);
  }

  /** What the manager counts after one more observation is what is live in the history. */
  lemma {:induction false} LiveAreCounted(config: FailConfig, fails: FailState, m: MatchResult, clock: int,
                                          before: W.History, h: W.History)
    requires fails == W.Run(config, before) && h == before + [W.Observation(m, clock)]
    ensures W.HostAt(h, |before|) == HostFor(fails.mlfids, m)
    ensures var host := HostFor(fails.mlfids, m);
            AddFailure(config, fails, m, clock).0.tickets[host].times == W.LiveTimes(config, h, host, |h|, |h|)
  {
    assert h[..|before|] == before && h[..|h|] == h;
    W.HostAgrees(config, h, |before|);
    W.WindowIsHistory(config, h, HostFor(fails.mlfids, m), |h|);
    W.RunStep(config, before, W.Observation(m, clock));
  }

  lemma {:induction false} SameTimes(config: FailConfig, fails: FailState, m: MatchResult, observed: MatchResult, clock: int)
    requires observed == m.(ip := observed.ip)
    ensures var host := HostFor(fails.mlfids, m);
            AddFailure(config, fails, m, clock).0.tickets[host].times ==
            AddFailure(config, fails, observed, clock).0.tickets[host].times
  {
  }
}
