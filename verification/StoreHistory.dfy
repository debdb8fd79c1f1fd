/** The store over whole runs of the system: what crashes do to it and what escalation counts. */
module StoreHistory {
  import opened Prelude
  import opened Numbers
  import opened Failures
  import opened BanManager
  import opened JailTask
  import opened Lifecycle
  import T = BanTables
  import U = StoreSteps
  import B = Bantime
  import O = Outcomes

  // ---- A run as store calls ----

  ghost function CrashSteps(s: System, where: Where): seq<U.Step>
    requires Enabled(s, Crash(where))
  {
    match where
    case Between => []
    case InCall(jail) => [U.Cut(EditsOf(jail, s.tasks[jail].work.todo[0])[0])]
    case InDropIp(ip) => [U.Cut(U.RemoveIp(ip))]
    case InDropAll => [U.Cut(U.RemoveAll)]
  }

  function CallSteps(jail: string, call: Call): seq<U.Step> {
    match call
    case BanAdd(_) => []
    case _ => [U.Whole(EditsOf(jail, call)[0])]
  }

  /** What an action does to the store: at most one call. */
  ghost function StepsOf(s: System, a: Action): (steps: seq<U.Step>)
    requires Enabled(s, a)
    ensures |steps| <= 1
  {
    match a
    case MakeCall(jail) => CallSteps(jail, s.tasks[jail].work.todo[0])
    case DropIp(ip) => [U.Whole(U.RemoveIp(ip))]
    case DropAll => [U.Whole(U.RemoveAll)]
    case Crash(where) => CrashSteps(s, where)
    case _ => []
  }

  ghost function Trace(s: System, actions: seq<Action>): seq<U.Step>
    requires IsRun(s, actions)
    decreases |actions|
  {
    if actions == [] then [] else StepsOf(s, actions[0]) + Trace(Next(s, actions[0]), actions[1..])
  }

  ghost function AtMostOne(t: T.Tables, steps: seq<U.Step>): T.Tables
    requires |steps| <= 1
  {
    if steps == [] then t else U.Apply(t, steps[0])
  }

  lemma NextIsStep(s: System, a: Action)
    requires Enabled(s, a)
    ensures Next(s, a).db == AtMostOne(s.db, StepsOf(s, a))
  {
  }

  lemma {:induction false} OneStep(t: T.Tables, steps: seq<U.Step>)
    requires |steps| <= 1
    ensures U.Run(t, steps) == AtMostOne(t, steps)
  {
    if steps != [] {
      assert steps[1..] == [];
    }
  }

  /** The store after a run is its calls executed one after the other. */
  lemma {:induction false} RunIsTrace(s: System, actions: seq<Action>)
    requires IsRun(s, actions)
    ensures Run(s, actions).db == U.Run(s.db, Trace(s, actions))
    decreases |actions|
  {
    if actions != [] {
      var steps := StepsOf(s, actions[0]);
      NextIsStep(s, actions[0]);
      OneStep(s.db, steps);
      RunIsTrace(Next(s, actions[0]), actions[1..]);
      U.RunConcat(s.db, steps, Trace(Next(s, actions[0]), actions[1..]));
    }
  }

  // ---- Crashes and integrity ----

  /** The crash comes in a removal whose first statement has deleted the row of
      a current ban. */
  ghost predicate Orphans(s: System, a: Action)
    requires Enabled(s, a)
  {
    var steps := StepsOf(s, a);
    steps != [] && steps[0].Cut? && U.DeletesCurrentRow(s.db, steps[0].edit)
  }

  ghost predicate AlwaysIntegrity(s: System, actions: seq<Action>)
    requires IsRun(s, actions)
    decreases |actions|
  {
    T.Integrity(s.db) && (actions == [] || AlwaysIntegrity(Next(s, actions[0]), actions[1..]))
  }

  ghost predicate NeverOrphans(s: System, actions: seq<Action>)
    requires IsRun(s, actions)
    decreases |actions|
  {
    actions == [] || (!Orphans(s, actions[0]) && NeverOrphans(Next(s, actions[0]), actions[1..]))
  }

  lemma {:induction false} StepIntegrity(s: System, a: Action)
    requires Enabled(s, a) && T.Integrity(s.db)
    ensures T.Integrity(Next(s, a).db) <==> !Orphans(s, a)
  {
    NextIsStep(s, a);
    var steps := StepsOf(s, a);
    if steps != [] {
      if steps[0].Cut? {
        U.CutKeepsIff(s.db, steps[0].edit);
      } else {
        U.WholeKeeps(s.db, steps[0].edit);
      }
    }
  }

  /** Over every run of the system the tables keep integrity exactly when they
      have it at first and no crash falls inside a removal after the row of a
      current ban is gone. */
  lemma {:induction false} IntegrityIff(s: System, actions: seq<Action>)
    requires IsRun(s, actions)
    ensures AlwaysIntegrity(s, actions) <==> T.Integrity(s.db) && NeverOrphans(s, actions)
    decreases |actions|
  {
    if actions != [] && T.Integrity(s.db) {
      StepIntegrity(s, actions[0]);
      IntegrityIff(Next(s, actions[0]), actions[1..]);
    }
  }

  /** Whatever the tables hold, only such a crash makes an orphan. */
  lemma {:induction false} OnlyCrashesOrphan(s: System, a: Action, k: T.BipKey)
    requires Enabled(s, a) && !T.Orphan(s.db, k) && T.Orphan(Next(s, a).db, k)
    ensures a.Crash? && Orphans(s, a)
  {
    NextIsStep(s, a);
    var steps := StepsOf(s, a);
    if steps != [] && steps[0].Whole? {
      U.WholeMakesNoOrphan(s.db, steps[0].edit, k);
    } else {
      U.CutMakesOrphan(s.db, steps[0].edit, k);
    }
  }

  /** The removal, complete or cut, that a step is of a pair. */
  predicate Removes(step: U.Step, k: T.BipKey) {
    match step.edit
    case Remove(jail, ip) => k == T.BipKey(jail, ip)
    case RemoveIp(ip) => k.ip == ip
    case RemoveAll => true
    case _ => false
  }

  /** A current ban that has its row is lost to nothing but its own removal. */
  lemma {:induction false} OnlyRemovalsLose(s: System, a: Action, k: T.BipKey)
    requires Enabled(s, a) && T.Joined(s.db, k) && !T.Joined(Next(s, a).db, k)
    ensures StepsOf(s, a) != [] && Removes(StepsOf(s, a)[0], k)
  {
    NextIsStep(s, a);
  }

  // ---- A run that leaves an orphan ----

  /** One current ban, which is over, of one jail. */
  function OneBan(k: T.BipKey, data: string): T.Tables {
    T.Tables(map[T.BanKey(k.jail, k.ip, 0) := T.BanInfo(Some(0), data)], map[k := 0])
  }

  function OneRow(k: T.BipKey, data: string): T.DbBan {
    T.DbBan(k.jail, k.ip, 0, Some(0), data)
  }

  function OneTask(db: T.Tables, k: T.BipKey, t: Task, pending: seq<T.DbBan>): System {
    System(db, map[k.jail := t], pending)
  }

  lemma {:induction false} OneIsListed(k: T.BipKey, data: string)
    ensures T.IsListing(OneBan(k, data), [OneRow(k, data)])
  {
    assert OneRow(k, data) in [OneRow(k, data)];
  }

  lemma {:induction false} OneIsSent(db: T.Tables, k: T.BipKey, data: string, t: Task)
    requires t.listed && t.queue == []
    ensures var s := OneTask(db, k, t, [OneRow(k, data)]);
            Next(s, SendRestore(0, None)) == OneTask(db, k, t.(queue := [RestoreCommand(OneRow(k, data), None)]), [])
  {
    var s := OneTask(db, k, t, [OneRow(k, data)]);
    assert s.pending[..0] + s.pending[1..] == [];
    assert t.queue + [RestoreCommand(OneRow(k, data), None)] == [RestoreCommand(OneRow(k, data), None)];
    assert s.tasks[k.jail := t.(queue := [RestoreCommand(OneRow(k, data), None)])]
        == map[k.jail := t.(queue := [RestoreCommand(OneRow(k, data), None)])];
  }

  lemma {:induction false} OneIsOver(db: T.Tables, k: T.BipKey, data: string, t: Task, inputs: Inputs)
    requires t.queue == [RestoreCommand(OneRow(k, data), None)] && Idle(OneTask(db, k, t, []), k.jail)
    requires inputs.now == 0 && inputs.clock == 0
    ensures Enabled(OneTask(db, k, t, []), Receive(k.jail, inputs))
    ensures var after := Next(OneTask(db, k, t, []), Receive(k.jail, inputs));
            after.db == db && k.jail in after.tasks && after.tasks[k.jail].work.todo == [DbRemove(k.ip)]
  {
  }

  /** A jail takes in a restored ban that is over, and the crash comes in the
      removal: the tables had integrity, and now hold an orphan. */
  lemma {:induction false} CrashCanOrphan(config: JailConfig, k: T.BipKey, data: string, inputs: Inputs, actions: seq<Action>)
    requires config.name == k.jail && config.fail.maxretry < U32 && inputs.now == 0 && inputs.clock == 0
    requires actions == [StartJail(config), ReadStore([OneRow(k, data)]), SendRestore(0, None), Receive(k.jail, inputs),
                         Crash(InCall(k.jail))]
    ensures var s := System(OneBan(k, data), map[], []);
            T.Integrity(s.db) && IsRun(s, actions) && T.Orphan(Run(s, actions).db, k)
  {
    var db, t := OneBan(k, data), FreshTask(config).(covered := true);
    var s0, s1, s2 := System(db, map[], []), OneTask(db, k, FreshTask(config), []), OneTask(db, k, t, [OneRow(k, data)]);
    var s3 := OneTask(db, k, t.(queue := [RestoreCommand(OneRow(k, data), None)]), []);
    OneIsRead(config, k, data);
    OneIsSent(db, k, data, t);
    var s4 := OneIsCut(db, k, data, s3.tasks[k.jail], inputs);
    RunOfFive(s0, actions, s1, s2, s3, s4);
  }

  lemma {:induction false} OneIsCut(db: T.Tables, k: T.BipKey, data: string, t: Task, inputs: Inputs) returns (taken: System)
    requires db == OneBan(k, data)
    requires t.queue == [RestoreCommand(OneRow(k, data), None)] && Idle(OneTask(db, k, t, []), k.jail)
    requires inputs.now == 0 && inputs.clock == 0
    ensures Enabled(OneTask(db, k, t, []), Receive(k.jail, inputs)) && taken == Next(OneTask(db, k, t, []), Receive(k.jail, inputs))
    ensures Enabled(taken, Crash(InCall(k.jail)))
    ensures T.Integrity(db) && T.Orphan(Next(taken, Crash(InCall(k.jail))).db, k)
  {
    OneIsOver(db, k, data, t, inputs);
    taken := Next(OneTask(db, k, t, []), Receive(k.jail, inputs));
    OneIsOrphaned(k, data, taken);
  }

  lemma {:induction false} OneIsRead(config: JailConfig, k: T.BipKey, data: string)
    requires config.name == k.jail && config.fail.maxretry < U32
    ensures var s0 := System(OneBan(k, data), map[], []);
            var s1 := OneTask(OneBan(k, data), k, FreshTask(config), []);
            && Enabled(s0, StartJail(config)) && Next(s0, StartJail(config)) == s1
            && Enabled(s1, ReadStore([OneRow(k, data)]))
            && Next(s1, ReadStore([OneRow(k, data)]))
               == OneTask(OneBan(k, data), k, FreshTask(config).(covered := true), [OneRow(k, data)])
  {
    OneIsListed(k, data);
    assert [] + [OneRow(k, data)] == [OneRow(k, data)];
  }

  lemma {:induction false} OneIsOrphaned(k: T.BipKey, data: string, s: System)
    requires s.db == OneBan(k, data) && k.jail in s.tasks && s.tasks[k.jail].work.todo == [DbRemove(k.ip)]
    ensures Enabled(s, Crash(InCall(k.jail)))
    ensures T.Integrity(s.db) && T.Orphan(Next(s, Crash(InCall(k.jail))).db, k)
  {
    U.CutOrphans(k, 0, T.BanInfo(Some(0), data), s.db);
  }

  lemma {:induction false} RunOfFive(s0: System, actions: seq<Action>, s1: System, s2: System, s3: System, s4: System)
    requires |actions| == 5
    requires Enabled(s0, actions[0]) && s1 == Next(s0, actions[0]) && Enabled(s1, actions[1]) && s2 == Next(s1, actions[1])
    requires Enabled(s2, actions[2]) && s3 == Next(s2, actions[2]) && Enabled(s3, actions[3]) && s4 == Next(s3, actions[3])
    requires Enabled(s4, actions[4])
    ensures IsRun(s0, actions) && Run(s0, actions) == Next(s4, actions[4])
  {
    var a4 := actions[4..];
    assert a4[0] == actions[4] && a4[1..] == [];
    assert IsRun(s4, a4) && Run(s4, a4) == Next(s4, actions[4]);
    var a3 := actions[3..];
    assert a3[0] == actions[3] && a3[1..] == a4;
    assert IsRun(s3, a3) && Run(s3, a3) == Run(s4, a4);
    var a2 := actions[2..];
    assert a2[0] == actions[2] && a2[1..] == a3;
    assert IsRun(s2, a2) && Run(s2, a2) == Run(s3, a3);
    var a1 := actions[1..];
    assert a1[0] == actions[1] && a1[1..] == a2;
    assert IsRun(s1, a1) && Run(s1, a1) == Run(s2, a2);
  }

  // ---- What escalation counts ----

  /** Every jail runs under its own name. */
  ghost predicate Named(s: System) {
    forall j :: j in s.tasks ==> s.tasks[j].config.name == j
  }

  lemma {:induction false} RunKeepsNames(s: System, actions: seq<Action>)
    requires Named(s) && IsRun(s, actions)
    ensures Named(Run(s, actions))
    decreases |actions|
  {
    if actions != [] {
      NextKeepsNames(s, actions[0]);
      RunKeepsNames(Next(s, actions[0]), actions[1..]);
    }
  }

  lemma {:induction false} NextKeepsNames(s: System, a: Action)
    requires Named(s) && Enabled(s, a)
    ensures Named(Next(s, a))
  {
  }

  /** How many bans of the pair a run has issued that nothing has taken back. */
  ghost function Unremoved(s: System, actions: seq<Action>, jail: string, ip: string): nat
    requires IsRun(s, actions)
  {
    U.Count(T.BanCount(s.db, jail, ip), Trace(s, actions), jail, ip)
  }

  /** When a line's ban goes out, the length before jitter is longer than the
      base exactly when a ban of the host is on record that no expiry, unban or
      flush has taken back, and the configuration lets it grow: a host that
      comes back after its ban ended starts from the base again. */
  lemma {:induction false} EscalatesIffUnremoved(s: System, actions: seq<Action>, jail: string, m: MatchResult, inputs: Inputs)
    requires Named(s) && IsRun(s, actions) && U.NewTimes(s.db, Trace(s, actions), jail, m.host)
    requires Enabled(Run(s, actions), Line(jail, m, inputs))
    ensures var now := Run(s, actions);
            var config := now.tasks[jail].config.bantime;
            var count := Unremoved(s, actions, jail, m.host);
            var base := B.ToSecondsOrMax(config.bantime);
            && Bantime(now.tasks[jail].config, now.db, m.host, inputs.random)
               == B.ComputeBantime(config, count, inputs.random)
            && (config.Valid() ==>
                 (B.Escalated(config, count) > base <==>
                   && count % U32 > 0 && config.factor >= 2 && 0 < base < U64_MAX
                   && (config.maxtime.Some? ==> base < B.ToSecondsOrMax(config.maxtime.value))))
  {
    var now := Run(s, actions);
    RunKeepsNames(s, actions);
    RunIsTrace(s, actions);
    U.CountIsUnremoved(s.db, Trace(s, actions), jail, m.host);
    var config := now.tasks[jail].config.bantime;
    if config.Valid() {
      B.LongerIff(config, Unremoved(s, actions, jail, m.host));
    }
  }

  /** The length of any ban of `host` that a jail makes next, after any run. */
  lemma {:induction false} NextLength(s: System, actions: seq<Action>, jail: string, host: string, random: nat)
    returns (secs: nat)
    requires Named(s) && IsRun(s, actions) && jail in Run(s, actions).tasks
    requires Run(s, actions).tasks[jail].config.bantime.Valid()
    ensures secs == Bantime(Run(s, actions).tasks[jail].config, Run(s, actions).db, host, random)
    ensures var config := Run(s, actions).tasks[jail].config.bantime;
            && (!config.increment ==> secs == B.Configured(config.bantime))
            && (U.NewTimes(s.db, Trace(s, actions), jail, host) ==>
                  B.IsLength(config, Unremoved(s, actions, jail, host), random, secs))
  {
    var now := Run(s, actions);
    RunKeepsNames(s, actions);
    RunIsTrace(s, actions);
    secs := Bantime(now.tasks[jail].config, now.db, host, random);
    B.LengthIsRight(now.tasks[jail].config.bantime, T.BanCount(now.db, jail, host), random);
    if U.NewTimes(s.db, Trace(s, actions), jail, host) {
      U.CountIsUnremoved(s.db, Trace(s, actions), jail, host);
    }
  }

  /** The ban that a line issues, in every reachable system: without increment
      it has the configured length whatever happened before; with increment the
      capped exact product for the bans of the line's host that nothing has
      taken back, and the draw. The row in the store says the same. */
  lemma {:induction false} LineBanLength(s: System, actions: seq<Action>, jail: string, m: MatchResult, inputs: Inputs)
    returns (secs: nat)
    requires Named(s) && IsRun(s, actions) && Enabled(Run(s, actions), Line(jail, m, inputs))
    requires Run(s, actions).tasks[jail].config.bantime.Valid()
    ensures var config := Run(s, actions).tasks[jail].config.bantime;
            && (!config.increment ==> secs == B.Configured(config.bantime))
            && (U.NewTimes(s.db, Trace(s, actions), jail, m.host) ==>
                  B.IsLength(config, Unremoved(s, actions, jail, m.host), inputs.random, secs))
    ensures var after := Next(Run(s, actions), Line(jail, m, inputs)).tasks[jail].work;
            && (after.dead ==> !O.HasDuration(secs))
            && (after.todo != [] ==>
                  && |after.todo| == 2 && after.todo[0].DbAdd? && after.todo[1].BanAdd?
                  && after.todo[0].info.bantime == Some(O.Signed(secs))
                  && after.todo[1].ticket.bantime == Some(O.Signed(secs)))
  {
    secs := NextLength(s, actions, jail, m.host, inputs.random);
    O.DurationIs(secs);
    IssuesLength(Run(s, actions).tasks[jail].config, Run(s, actions).tasks[jail].work, Run(s, actions).db, m, inputs, secs);
  }

  lemma {:induction false} IssuesLength(config: JailConfig, w: Work, db: T.Tables, m: MatchResult, inputs: Inputs, secs: nat)
    requires w.todo == [] && !w.dead && secs == Bantime(config, db, m.host, inputs.random)
    ensures var after := ProcessLine(config, w, db, m, inputs);
            && (after.dead ==> Duration(secs).None?)
            && (after.todo != [] ==>
                  && |after.todo| == 2 && after.todo[0].DbAdd? && after.todo[1].BanAdd?
                  && after.todo[0].info.bantime == Duration(secs) && after.todo[1].ticket.bantime == Duration(secs))
  {
  }

  /** So it is for the ban that a command makes. */
  lemma {:induction false} CommandBanLength(s: System, actions: seq<Action>, jail: string, inputs: Inputs) returns (secs: nat)
    requires Named(s) && IsRun(s, actions) && Enabled(Run(s, actions), Receive(jail, inputs))
    requires Run(s, actions).tasks[jail].config.bantime.Valid()
    requires var command := Run(s, actions).tasks[jail].queue[0]; command.BanIp? || command.Attempt?
    ensures var config, ip := Run(s, actions).tasks[jail].config.bantime, Run(s, actions).tasks[jail].queue[0].ip;
            && (!config.increment ==> secs == B.Configured(config.bantime))
            && (U.NewTimes(s.db, Trace(s, actions), jail, ip) ==>
                  B.IsLength(config, Unremoved(s, actions, jail, ip), inputs.random, secs))
    ensures var after := Next(Run(s, actions), Receive(jail, inputs)).tasks[jail].work;
            && (after.dead ==> !O.HasDuration(secs))
            && forall i :: 0 <= i < |after.todo| && after.todo[i].BanAdd? ==>
                             after.todo[i].ticket.bantime == Some(O.Signed(secs))
  {
    var now := Run(s, actions);
    var t := now.tasks[jail];
    secs := NextLength(s, actions, jail, t.queue[0].ip, inputs.random);
    O.DurationIs(secs);
    ObeysLength(t.config, t.work, now.db, t.queue[0], inputs, secs);
  }

  lemma {:induction false} ObeysLength(config: JailConfig, w: Work, db: T.Tables, command: Command, inputs: Inputs, secs: nat)
    requires w.todo == [] && !w.dead && (command.BanIp? || command.Attempt?)
    requires secs == Bantime(config, db, command.ip, inputs.random)
    ensures var after := Obey(config, w, db, command, inputs);
            && (after.dead ==> Duration(secs).None?)
            && forall i :: 0 <= i < |after.todo| && after.todo[i].BanAdd? ==> after.todo[i].ticket.bantime == Duration(secs)
  {
  }
}
