/**
 An unban by the server unbans: once a jail has taken in its commands, it does
 not ban the address, whatever ran in between.
 */
module Unbanning {
  import opened Prelude
  import opened Failures
  import opened BanManager
  import opened JailTask
  import opened Lifecycle
  import T = BanTables
  import Coverage
  import Outcomes
  import U = StoreSteps
  import Server

  // ---- The server reaches a jail ----

  /** `UnbanIp` comes to a jail. */
  function Visited(t: Task, ip: string): Task {
    t.(queue := Server.WithUnban(t.queue, ip in t.work.bans, ip))
  }

  /** `UnbanAll` comes to a jail. */
  function Flushed(t: Task): Task {
    t.(queue := t.queue + [FlushAll])
  }

  // ---- No ban of the address on its way ----

  predicate CanBan(command: Command, ip: string) {
    (command.BanIp? || command.Attempt? || command.RestoreBan?) && command.ip == ip
  }

  predicate Bans(call: Call, ip: string) {
    (call.BanAdd? && call.ticket.host == ip) || (call.DbAdd? && call.ip == ip)
  }

  ghost predicate NoCallBans(todo: seq<Call>, ip: string) {
    forall call :: call in todo ==> !Bans(call, ip)
  }

  ghost predicate NoBanComing(t: Task, ip: string) {
    (forall command :: command in t.queue ==> !CanBan(command, ip)) && NoCallBans(t.work.todo, ip)
  }

  ghost predicate NoneComing(s: System, ip: string) {
    && (forall j :: j in s.tasks ==> NoBanComing(s.tasks[j], ip))
    && (forall row :: row in s.pending ==> row.ip != ip)
  }

  /** The action asks no jail to ban the address, and no line counts for it. */
  ghost predicate Spares(s: System, a: Action, ip: string)
    requires Enabled(s, a)
  {
    match a
    case Send(_, command) => !CanBan(command, ip)
    case Line(jail, m, _) => HostFor(s.tasks[jail].work.fails.mlfids, m) != ip
    case ReadStore(rows) => forall row :: row in rows ==> row.ip != ip
    case _ => true
  }

  ghost predicate SparingRun(s: System, actions: seq<Action>, ip: string)
    requires IsRun(s, actions)
    decreases |actions|
  {
    actions == [] || (Spares(s, actions[0], ip) && SparingRun(Next(s, actions[0]), actions[1..], ip))
  }

  /** A jail that lives and bans the address has a command that lifts it. */
  ghost predicate WillLift(t: Task, ip: string) {
    !t.work.dead && ip in t.work.bans ==> UnbanIp(ip) in t.queue || FlushAll in t.queue
  }

  ghost predicate Lifting(s: System, jail: string, ip: string) {
    jail in s.tasks ==> WillLift(s.tasks[jail], ip)
  }

  // ---- An iteration ----

  lemma {:induction false} IssueSpares(w: Work, fails: FailState, fail: FailTicket, m: MatchResult, secs: nat, inputs: Inputs,
                                       ip: string)
    requires w.todo == [] && fail.host != ip
    ensures var after := Issue(w, fails, fail, m, secs, inputs);
            NoCallBans(after.todo, ip) && after.bans == w.bans
  {
  }

  lemma {:induction false} LineSpares(t: Task, db: T.Tables, m: MatchResult, inputs: Inputs, ip: string)
    requires t.work.todo == [] && !t.work.dead && Coverage.Below(t)
    requires HostFor(t.work.fails.mlfids, m) != ip
    ensures var after := ProcessLine(t.config, t.work, db, m, inputs);
            NoCallBans(after.todo, ip) && after.bans == t.work.bans
  {
    if !m.mlfforget && !(m.ip.None? && m.host != "" && t.config.usedns == "no") {
      var seen := if m.ip.None? && m.host != "" && (t.config.usedns == "yes" || t.config.usedns == "warn")
                  then m.(ip := inputs.resolved) else m;
      var (counted, r) := AddFailure(t.config.fail, t.work.fails, seen, inputs.clock);
      ObservationKeepsBelow(t.config.fail, t.work.fails, seen, inputs.clock);
      Outcomes.LineCounts(t.config, t.work, db, m, seen, inputs, counted, r);
      if r.Some? {
        IssueSpares(t.work, counted, r.value, seen, Bantime(t.config, db, m.host, inputs.random), inputs, ip);
      }
    }
  }

  lemma {:induction false} CommandSpares(t: Task, db: T.Tables, command: Command, inputs: Inputs, ip: string)
    requires t.work.todo == [] && !t.work.dead && Coverage.Below(t) && !CanBan(command, ip)
    ensures var after := Obey(t.config, t.work, db, command, inputs);
            && NoCallBans(after.todo, ip)
            && (ip in after.bans ==> ip in t.work.bans)
            && (!after.dead && (command == UnbanIp(ip) || command == FlushAll) ==> ip !in after.bans)
  {
    if command.Attempt? {
      ObservationKeepsBelow(t.config.fail, t.work.fails, AttemptMatch(command.ip, inputs), inputs.clock);
    }
  }

  lemma {:induction false} ReceiveLifts(t: Task, db: T.Tables, inputs: Inputs, ip: string)
    requires t.queue != [] && t.work.todo == [] && !t.work.dead && Coverage.Below(t)
    requires NoBanComing(t, ip)
    ensures NoBanComing(ReceiveTask(t, db, inputs), ip)
    ensures WillLift(t, ip) ==> WillLift(ReceiveTask(t, db, inputs), ip)
  {
    assert t.queue == [t.queue[0]] + t.queue[1..];
    assert t.queue[0] in t.queue;
    CommandSpares(t, db, t.queue[0], inputs, ip);
  }

  lemma {:induction false} TickLifts(t: Task, inputs: Inputs, ip: string)
    requires t.work.todo == [] && !t.work.dead && NoBanComing(t, ip)
    ensures var after := t.(work := PurgeExpired(t.config, t.work, inputs));
            NoBanComing(after, ip) && (WillLift(t, ip) ==> WillLift(after, ip))
  {
  }

  lemma {:induction false} CallLifts(t: Task, ip: string)
    requires t.work.todo != [] && NoBanComing(t, ip)
    ensures NoBanComing(CallTask(t), ip)
    ensures WillLift(t, ip) ==> WillLift(CallTask(t), ip)
  {
    assert t.work.todo[0] in t.work.todo;
    assert t.work.todo == [t.work.todo[0]] + t.work.todo[1..];
  }

  lemma {:induction false} QueueLifts(t: Task, command: Command, ip: string)
    requires NoBanComing(t, ip) && !CanBan(command, ip)
    ensures NoBanComing(Enqueue(t, command), ip)
    ensures WillLift(t, ip) ==> WillLift(Enqueue(t, command), ip)
  {
  }

  // ---- Every step ----

  /** One task at most is other than before. */
  lemma {:induction false} OneTask(s: System, after: System, changed: string, jail: string, ip: string)
    requires NoneComing(s, ip) && changed in s.tasks
    requires changed in after.tasks && NoBanComing(after.tasks[changed], ip)
    requires WillLift(s.tasks[changed], ip) ==> WillLift(after.tasks[changed], ip)
    requires forall j :: j in after.tasks && j != changed ==> j in s.tasks && after.tasks[j] == s.tasks[j]
    requires forall row :: row in after.pending ==> row in s.pending
    ensures NoneComing(after, ip) && (Lifting(s, jail, ip) ==> Lifting(after, jail, ip))
  {
  }

  lemma {:induction false} TaskStepLifts(s: System, a: Action, jail: string, ip: string)
    requires NoneComing(s, ip) && Coverage.AllBelow(s) && Enabled(s, a) && Spares(s, a, ip)
    requires a.Line? || a.Tick? || a.Receive? || a.MakeCall? || a.Send?
    ensures NoneComing(Next(s, a), ip) && (Lifting(s, jail, ip) ==> Lifting(Next(s, a), jail, ip))
  {
    var t := s.tasks[a.jail];
    match a {
      case Line(_, m, inputs) => LineSpares(t, s.db, m, inputs, ip);
      case Tick(_, inputs) => TickLifts(t, inputs, ip);
      case Receive(_, inputs) => ReceiveLifts(t, s.db, inputs, ip);
      case MakeCall(_) => CallLifts(t, ip);
      case Send(_, command) => QueueLifts(t, command, ip);
    }
    OneTask(s, Next(s, a), a.jail, jail, ip);
  }

  lemma {:induction false} RestoreLifts(s: System, i: nat, ipAddr: Option<string>, jail: string, ip: string)
    requires NoneComing(s, ip) && Enabled(s, SendRestore(i, ipAddr))
    ensures var after := Next(s, SendRestore(i, ipAddr));
            NoneComing(after, ip) && (Lifting(s, jail, ip) ==> Lifting(after, jail, ip))
  {
    var row := s.pending[i];
    assert row in s.pending;
    if row.jail in s.tasks && s.tasks[row.jail].listed {
      QueueLifts(s.tasks[row.jail], RestoreCommand(row, ipAddr), ip);
      OneTask(s, Next(s, SendRestore(i, ipAddr)), row.jail, jail, ip);
    }
  }

  lemma {:induction false} ServerStepLifts(s: System, a: Action, jail: string, ip: string)
    requires NoneComing(s, ip) && Enabled(s, a) && Spares(s, a, ip)
    requires a.StartJail? || a.StopJail? || a.ReadStore? || a.DropIp? || a.DropAll? || a.Exit? || a.Crash?
    ensures NoneComing(Next(s, a), ip) && (Lifting(s, jail, ip) ==> Lifting(Next(s, a), jail, ip))
  {
    if a.StopJail? {
      QueueLifts(s.tasks[a.jail], Stop, ip);
    }
  }

  lemma {:induction false} NextLifts(s: System, a: Action, jail: string, ip: string)
    requires NoneComing(s, ip) && Coverage.AllBelow(s) && Enabled(s, a) && Spares(s, a, ip)
    ensures NoneComing(Next(s, a), ip) && (Lifting(s, jail, ip) ==> Lifting(Next(s, a), jail, ip))
  {
    match a {
      case SendRestore(i, ipAddr) => RestoreLifts(s, i, ipAddr, jail, ip);
      case Line(_, _, _) => TaskStepLifts(s, a, jail, ip);
      case Tick(_, _) => TaskStepLifts(s, a, jail, ip);
      case Receive(_, _) => TaskStepLifts(s, a, jail, ip);
      case MakeCall(_) => TaskStepLifts(s, a, jail, ip);
      case Send(_, _) => TaskStepLifts(s, a, jail, ip);
      case _ => ServerStepLifts(s, a, jail, ip);
    }
  }

  lemma {:induction false} RunLifts(s: System, actions: seq<Action>, jail: string, ip: string)
    requires NoneComing(s, ip) && Coverage.AllBelow(s) && IsRun(s, actions) && SparingRun(s, actions, ip)
    ensures NoneComing(Run(s, actions), ip) && (Lifting(s, jail, ip) ==> Lifting(Run(s, actions), jail, ip))
    decreases |actions|
  {
    if actions != [] {
      NextLifts(s, actions[0], jail, ip);
      Coverage.NextKeepsBelow(s, actions[0]);
      RunLifts(Next(s, actions[0]), actions[1..], jail, ip);
    }
  }

  /** The server comes to a jail with an unban, or a flush, while no ban of the
      address is on its way. Whatever runs afterwards without asking for one:
      when the jail has taken in its commands and made their calls, it does not
      ban the address. */
  lemma {:induction false} UnbanReaches(s: System, jail: string, flush: bool, ip: string, actions: seq<Action>)
    requires jail in s.tasks && NoneComing(s, ip) && Coverage.AllBelow(s)
    requires var sent := s.(tasks := s.tasks[jail := if flush then Flushed(s.tasks[jail]) else Visited(s.tasks[jail], ip)]);
             IsRun(sent, actions) && SparingRun(sent, actions, ip)
    ensures var sent := s.(tasks := s.tasks[jail := if flush then Flushed(s.tasks[jail]) else Visited(s.tasks[jail], ip)]);
            var after := Run(sent, actions);
            jail in after.tasks && !after.tasks[jail].work.dead && after.tasks[jail].queue == [] ==>
              ip !in after.tasks[jail].work.bans
  {
    var t := if flush then Flushed(s.tasks[jail]) else Visited(s.tasks[jail], ip);
    var sent := s.(tasks := s.tasks[jail := t]);
    assert WillLift(t, ip) by {
      assert flush ==> t.queue[|s.tasks[jail].queue|] == FlushAll;
      assert !flush && ip in t.work.bans ==> t.queue[|s.tasks[jail].queue|] == UnbanIp(ip);
    }
    assert NoBanComing(t, ip);
    assert Coverage.Below(s.tasks[jail]) && Coverage.Below(t);
    RunLifts(sent, actions, jail, ip);
  }

  // ---- The store ----

  ghost predicate Gone(db: T.Tables, ip: string) {
    (forall k :: k in db.bips ==> k.ip != ip) && forall k :: k in db.bans ==> k.ip != ip
  }

  lemma {:induction false} NextKeepsGone(s: System, a: Action, ip: string)
    requires NoneComing(s, ip) && Enabled(s, a) && Gone(s.db, ip)
    ensures Gone(Next(s, a).db, ip)
  {
    if a.MakeCall? {
      assert s.tasks[a.jail].work.todo[0] in s.tasks[a.jail].work.todo;
    } else if a.Crash? && a.where.InCall? {
      var call := s.tasks[a.where.jail].work.todo[0];
      assert call in s.tasks[a.where.jail].work.todo;
      assert EditsOf(a.where.jail, call)[0] ==
             if call.DbAdd? then U.Add(a.where.jail, call.ip, call.time, call.info) else U.Remove(a.where.jail, call.ip);
    }
  }

  /** Once the server has dropped the address from the store, the store keeps no
      row of it, and so nothing restores it. */
  lemma {:induction false} DroppedStaysGone(s: System, ip: string, actions: seq<Action>)
    requires NoneComing(s, ip) && Coverage.AllBelow(s)
    requires var dropped := s.(db := T.RemoveBanAllJails(s.db, ip));
             IsRun(dropped, actions) && SparingRun(dropped, actions, ip)
    ensures Gone(Run(s.(db := T.RemoveBanAllJails(s.db, ip)), actions).db, ip)
  {
    GoneThroughout(s.(db := T.RemoveBanAllJails(s.db, ip)), ip, actions);
  }

  lemma {:induction false} GoneThroughout(s: System, ip: string, actions: seq<Action>)
    requires NoneComing(s, ip) && Coverage.AllBelow(s) && Gone(s.db, ip)
    requires IsRun(s, actions) && SparingRun(s, actions, ip)
    ensures Gone(Run(s, actions).db, ip)
    decreases |actions|
  {
    if actions != [] {
      NextKeepsGone(s, actions[0], ip);
      NextLifts(s, actions[0], "", ip);
      Coverage.NextKeepsBelow(s, actions[0]);
      GoneThroughout(Next(s, actions[0]), ip, actions[1..]);
    }
  }
}
