/**
 What every run of the system keeps: no jail loses track of a stored ban, and no
 host lingers at the threshold.
 */
module Coverage {
  import opened Prelude
  import opened Numbers
  import opened Failures
  import opened BanManager
  import opened JailTask
  import opened Lifecycle
  import T = BanTables

  // ---- No current ban is forgotten ----

  predicate Settles(call: Call, ip: string) {
    match call
    case BanAdd(ticket) => ticket.host == ip
    case DbRemove(removed) => removed == ip
    case DbAdd(_, _, _) => false
  }

  predicate Restores(command: Command, ip: string) {
    command.RestoreBan? && command.ip == ip
  }

  ghost predicate Settled(todo: seq<Call>, ip: string) {
    exists i :: 0 <= i < |todo| && Settles(todo[i], ip)
  }

  ghost predicate Queued(queue: seq<Command>, ip: string) {
    exists i :: 0 <= i < |queue| && Restores(queue[i], ip)
  }

  ghost predicate Pending(rows: seq<T.DbBan>, jail: string, ip: string) {
    exists i :: 0 <= i < |rows| && rows[i].jail == jail && rows[i].ip == ip
  }

  /** Where a jail keeps track of an address. */
  ghost predicate Tracked(s: System, jail: string, ip: string)
    requires jail in s.tasks
  {
    || ip in s.tasks[jail].work.bans
    || Settled(s.tasks[jail].work.todo, ip)
    || Queued(s.tasks[jail].queue, ip)
    || Pending(s.pending, jail, ip)
  }

  /** A ban goes to the store only with its call on the manager behind it. */
  ghost predicate Paired(todo: seq<Call>) {
    forall i :: 0 <= i < |todo| && todo[i].DbAdd? ==>
                  i + 1 < |todo| && todo[i + 1].BanAdd? && todo[i + 1].ticket.host == todo[i].ip
  }

  ghost predicate Covers(s: System, jail: string)
    requires jail in s.tasks
  {
    forall ip :: T.Joined(s.db, T.BipKey(jail, ip)) ==> Tracked(s, jail, ip)
  }

  ghost predicate TaskInv(t: Task) {
    && Paired(t.work.todo)
    && (t.covered ==> t.listed)
    && (t.stopped || Stop in t.queue ==> !t.listed)
  }

  ghost predicate Inv(s: System) {
    && (forall j :: j in s.tasks ==> TaskInv(s.tasks[j]))
    && (forall j :: j in s.tasks && s.tasks[j].covered && !s.tasks[j].work.dead ==> Covers(s, j))
  }

  lemma PairedLine(config: JailConfig, w: Work, db: T.Tables, m: MatchResult, inputs: Inputs)
    requires w.todo == []
    ensures Paired(ProcessLine(config, w, db, m, inputs).todo)
  {
  }

  lemma PairedObey(config: JailConfig, w: Work, db: T.Tables, command: Command, inputs: Inputs)
    requires w.todo == []
    ensures Paired(Obey(config, w, db, command, inputs).todo)
  {
  }

  /** An iteration begins: whatever leaves the ban map has a call that settles it. */
  lemma BeginTracks(config: JailConfig, w: Work, db: T.Tables, command: Command, inputs: Inputs, ip: string)
    requires w.todo == [] && ip in w.bans && Ordered(w, command, inputs)
    ensures var after := Obey(config, w, db, command, inputs);
            after.dead || ip in after.bans || Settled(after.todo, ip)
  {
    var after := Obey(config, w, db, command, inputs);
    if !after.dead && ip !in after.bans {
      if command.UnbanIp? {
        assert Settles(after.todo[0], ip);
      } else {
        assert ip in inputs.order;
        var i :| 0 <= i < |inputs.order| && inputs.order[i] == ip;
        assert Settles(after.todo[i], ip);
      }
    }
  }

  lemma RestoreTracks(config: JailConfig, w: Work, db: T.Tables, command: Command, inputs: Inputs, ip: string)
    requires Restores(command, ip)
    ensures var after := Obey(config, w, db, command, inputs);
            after.dead || Settled(after.todo, ip)
  {
    var after := Obey(config, w, db, command, inputs);
    if !after.dead {
      assert Settles(after.todo[0], ip);
    }
  }

  /** Commands behind the first stay in the queue. */
  lemma QueuedBehind(queue: seq<Command>, ip: string)
    requires queue != [] && Queued(queue, ip)
    ensures Restores(queue[0], ip) || Queued(queue[1..], ip)
  {
    var i :| 0 <= i < |queue| && Restores(queue[i], ip);
    if i > 0 {
      assert Restores(queue[1..][i - 1], ip);
    }
  }

  lemma QueuedBefore(queue: seq<Command>, command: Command, ip: string)
    ensures Queued(queue, ip) ==> Queued(queue + [command], ip)
    ensures Restores(command, ip) ==> Queued(queue + [command], ip)
  {
    var all := queue + [command];
    if Queued(queue, ip) {
      var i :| 0 <= i < |queue| && Restores(queue[i], ip);
      assert Restores(all[i], ip);
    }
    assert all[|queue|] == command;
  }

  lemma ReceiveKeeps(s: System, jail: string, inputs: Inputs)
    requires Inv(s) && Enabled(s, Receive(jail, inputs))
    ensures Inv(Next(s, Receive(jail, inputs)))
  {
    var after := Next(s, Receive(jail, inputs));
    var t := s.tasks[jail];
    PairedObey(t.config, t.work, s.db, t.queue[0], inputs);
    forall j, ip | j in after.tasks && after.tasks[j].covered && !after.tasks[j].work.dead
                     && T.Joined(after.db, T.BipKey(j, ip))
      ensures Tracked(after, j, ip)
    {
      assert Covers(s, j) && Tracked(s, j, ip);
      if j == jail {
        if ip in t.work.bans {
          BeginTracks(t.config, t.work, s.db, t.queue[0], inputs, ip);
        } else if Queued(t.queue, ip) {
          QueuedBehind(t.queue, ip);
          if Restores(t.queue[0], ip) {
            RestoreTracks(t.config, t.work, s.db, t.queue[0], inputs, ip);
          }
        }
      }
    }
  }

  lemma LineKeeps(s: System, jail: string, m: MatchResult, inputs: Inputs)
    requires Inv(s) && Enabled(s, Line(jail, m, inputs))
    ensures Inv(Next(s, Line(jail, m, inputs)))
  {
    var after := Next(s, Line(jail, m, inputs));
    PairedLine(s.tasks[jail].config, s.tasks[jail].work, s.db, m, inputs);
    forall j, ip | j in after.tasks && after.tasks[j].covered && !after.tasks[j].work.dead
                     && T.Joined(after.db, T.BipKey(j, ip))
      ensures Tracked(after, j, ip)
    {
      assert Covers(s, j) && Tracked(s, j, ip);
    }
  }

  lemma TickKeeps(s: System, jail: string, inputs: Inputs)
    requires Inv(s) && Enabled(s, Tick(jail, inputs))
    ensures Inv(Next(s, Tick(jail, inputs)))
  {
    var after := Next(s, Tick(jail, inputs));
    var t := s.tasks[jail];
    PairedObey(t.config, t.work, s.db, Stop, inputs);
    forall j, ip | j in after.tasks && after.tasks[j].covered && !after.tasks[j].work.dead
                     && T.Joined(after.db, T.BipKey(j, ip))
      ensures Tracked(after, j, ip)
    {
      assert Covers(s, j) && Tracked(s, j, ip);
      if j == jail && ip in t.work.bans {
        BeginTracks(t.config, t.work, s.db, Stop, inputs, ip);
      }
    }
  }

  /** A call makes true what it settles, and the calls behind it stay. */
  lemma CallTracks(jail: string, db: T.Tables, w: Work, ip: string)
    requires w.todo != [] && Paired(w.todo)
    requires T.Joined(CallDb(jail, db, w.todo[0]), T.BipKey(jail, ip))
    requires T.Joined(db, T.BipKey(jail, ip)) ==> ip in w.bans || Settled(w.todo, ip)
    ensures ip in CallBans(w.bans, w.todo[0]) || Settled(w.todo[1..], ip)
  {
    var call, rest := w.todo[0], w.todo[1..];
    if call.DbAdd? && call.ip == ip {
      assert Settles(rest[0], ip);
    } else if ip !in w.bans {
      var i :| 0 <= i < |w.todo| && Settles(w.todo[i], ip);
      if i > 0 {
        assert Settles(rest[i - 1], ip);
      }
    }
  }

  lemma CallLeavesOthers(jail: string, db: T.Tables, call: Call, other: string, ip: string)
    requires other != jail
    ensures T.Joined(CallDb(jail, db, call), T.BipKey(other, ip)) <==> T.Joined(db, T.BipKey(other, ip))
  {
  }

  lemma MakeCallKeeps(s: System, jail: string)
    requires Inv(s) && Enabled(s, MakeCall(jail))
    ensures Inv(Next(s, MakeCall(jail)))
  {
    var after := Next(s, MakeCall(jail));
    var t := s.tasks[jail];
    assert Paired(t.work.todo[1..]) by {
      forall i | 0 <= i < |t.work.todo[1..]|
        ensures t.work.todo[1..][i] == t.work.todo[i + 1]
      {
      }
    }
    forall j, ip | j in after.tasks && after.tasks[j].covered && !after.tasks[j].work.dead
                     && T.Joined(after.db, T.BipKey(j, ip))
      ensures Tracked(after, j, ip)
    {
      if j != jail {
        CallLeavesOthers(jail, s.db, t.work.todo[0], j, ip);
        assert Covers(s, j) && Tracked(s, j, ip);
      } else {
        assert Covers(s, j);
        if !(Queued(t.queue, ip) || Pending(s.pending, jail, ip)) {
          assert T.Joined(s.db, T.BipKey(jail, ip)) ==> Tracked(s, jail, ip);
          CallTracks(jail, s.db, t.work, ip);
        }
      }
    }
  }

  lemma PendingWithout(rows: seq<T.DbBan>, i: nat, jail: string, ip: string)
    requires i < |rows| && Pending(rows, jail, ip)
    ensures (rows[i].jail == jail && rows[i].ip == ip) || Pending(rows[..i] + rows[i + 1..], jail, ip)
  {
    var k :| 0 <= k < |rows| && rows[k].jail == jail && rows[k].ip == ip;
    var rest := rows[..i] + rows[i + 1..];
    if k < i {
      assert rest[k] == rows[k];
    } else if k > i {
      assert rest[k - 1] == rows[k];
    }
  }

  lemma SendRestoreKeeps(s: System, i: nat, ipAddr: Option<string>)
    requires Inv(s) && Enabled(s, SendRestore(i, ipAddr))
    ensures Inv(Next(s, SendRestore(i, ipAddr)))
  {
    var after := Next(s, SendRestore(i, ipAddr));
    var row := s.pending[i];
    forall j, ip | j in after.tasks && after.tasks[j].covered && !after.tasks[j].work.dead
                     && T.Joined(after.db, T.BipKey(j, ip))
      ensures Tracked(after, j, ip)
    {
      assert Covers(s, j) && Tracked(s, j, ip);
      QueuedBefore(s.tasks[j].queue, RestoreCommand(row, ipAddr), ip);
      if Pending(s.pending, j, ip) {
        PendingWithout(s.pending, i, j, ip);
      }
    }
  }

  lemma ReadStoreKeeps(s: System, rows: seq<T.DbBan>)
    requires Inv(s) && Enabled(s, ReadStore(rows))
    ensures Inv(Next(s, ReadStore(rows)))
  {
    var after := Next(s, ReadStore(rows));
    forall j, ip | j in after.tasks && after.tasks[j].covered && !after.tasks[j].work.dead
                     && T.Joined(after.db, T.BipKey(j, ip))
      ensures Tracked(after, j, ip)
    {
      ListedIsPending(s.db, s.pending, rows, j, ip);
    }
  }

  lemma ListedIsPending(db: T.Tables, pending: seq<T.DbBan>, rows: seq<T.DbBan>, jail: string, ip: string)
    requires T.IsListing(db, rows) && T.Joined(db, T.BipKey(jail, ip))
    ensures Pending(pending + rows, jail, ip)
  {
    T.ListingIsCurrentBans(db, rows);
    var row := T.RowOf(db, T.BipKey(jail, ip));
    assert row in rows;
    var i :| 0 <= i < |rows| && rows[i] == row;
    assert (pending + rows)[|pending| + i] == row;
  }

  lemma SendKeeps(s: System, jail: string, command: Command)
    requires Inv(s) && Enabled(s, Send(jail, command))
    ensures Inv(Next(s, Send(jail, command)))
  {
    var after := Next(s, Send(jail, command));
    forall j, ip | j in after.tasks && after.tasks[j].covered && !after.tasks[j].work.dead
                     && T.Joined(after.db, T.BipKey(j, ip))
      ensures Tracked(after, j, ip)
    {
      assert Covers(s, j) && Tracked(s, j, ip);
      QueuedBefore(s.tasks[j].queue, command, ip);
    }
  }

  /** Starting, stopping, dropping rows and crashing add nothing to keep track of. */
  lemma OtherKeeps(s: System, a: Action)
    requires Inv(s) && Enabled(s, a)
    requires a.StartJail? || a.StopJail? || a.DropIp? || a.DropAll? || a.Exit? || a.Crash?
    ensures Inv(Next(s, a))
  {
    var after := Next(s, a);
    forall j, ip | j in after.tasks && after.tasks[j].covered && !after.tasks[j].work.dead
                     && T.Joined(after.db, T.BipKey(j, ip))
      ensures Tracked(after, j, ip)
    {
      assert Covers(s, j) && Tracked(s, j, ip);
    }
  }

  lemma NextKeeps(s: System, a: Action)
    requires Inv(s) && Enabled(s, a)
    ensures Inv(Next(s, a))
  {
    match a {
      case Send(jail, command) => SendKeeps(s, jail, command);
      case ReadStore(rows) => ReadStoreKeeps(s, rows);
      case SendRestore(i, ipAddr) => SendRestoreKeeps(s, i, ipAddr);
      case Line(jail, m, inputs) => LineKeeps(s, jail, m, inputs);
      case Tick(jail, inputs) => TickKeeps(s, jail, inputs);
      case Receive(jail, inputs) => ReceiveKeeps(s, jail, inputs);
      case MakeCall(jail) => MakeCallKeeps(s, jail);
      case _ => OtherKeeps(s, a);
    }
  }

  lemma {:induction false} RunKeeps(s: System, actions: seq<Action>)
    requires Inv(s) && IsRun(s, actions)
    ensures Inv(Run(s, actions))
    decreases |actions|
  {
    if actions != [] {
      NextKeeps(s, actions[0]);
      RunKeeps(Next(s, actions[0]), actions[1..]);
    }
  }

  /** Once the store has been read for a jail, only stopping the jail or a
      crash ends that. */
  lemma CoveredLasts(s: System, a: Action, jail: string)
    requires Inv(s) && Enabled(s, a) && jail in s.tasks && s.tasks[jail].covered
    requires a != StopJail(jail) && !a.Crash?
    ensures jail in Next(s, a).tasks && Next(s, a).tasks[jail].covered
  {
  }

  lemma {:induction false} CoveredThroughout(s: System, actions: seq<Action>, jail: string)
    requires Inv(s) && IsRun(s, actions) && jail in s.tasks && s.tasks[jail].covered
    requires StopJail(jail) !in actions && forall a :: a in actions ==> !a.Crash?
    ensures jail in Run(s, actions).tasks && Run(s, actions).tasks[jail].covered
    decreases |actions|
  {
    if actions != [] {
      assert actions[0] in actions;
      NextKeeps(s, actions[0]);
      CoveredLasts(s, actions[0], jail);
      CoveredThroughout(Next(s, actions[0]), actions[1..], jail);
    }
  }

  /** From any reachable system, whatever the store held at first: once the
      store is read while a jail is listed, and until that jail is stopped or
      panics, each of its current bans that has its row is, between its
      iterations, in its ban map, in a restore command still in its queue, or
      in a row still to be sent to it. */
  lemma {:induction false} NoBanForgotten(db: T.Tables, earlier: seq<Action>, rows: seq<T.DbBan>, later: seq<Action>,
                                          jail: string, ip: string)
    requires IsRun(System(db, map[], []), earlier)
    requires var s := Run(System(db, map[], []), earlier);
             && jail in s.tasks && s.tasks[jail].listed
             && Enabled(s, ReadStore(rows)) && IsRun(Next(s, ReadStore(rows)), later)
    requires StopJail(jail) !in later && forall a :: a in later ==> !a.Crash?
    ensures var s := Run(Next(Run(System(db, map[], []), earlier), ReadStore(rows)), later);
            && jail in s.tasks
            && (Idle(s, jail) && T.Joined(s.db, T.BipKey(jail, ip)) ==>
                  || ip in s.tasks[jail].work.bans
                  || Queued(s.tasks[jail].queue, ip)
                  || Pending(s.pending, jail, ip))
  {
    RunKeeps(System(db, map[], []), earlier);
    var s := Run(System(db, map[], []), earlier);
    var read := Next(s, ReadStore(rows));
    NextKeeps(s, ReadStore(rows));
    CoveredThroughout(read, later, jail);
    RunKeeps(read, later);
    assert Idle(Run(read, later), jail) ==> Covers(Run(read, later), jail);
  }

  // ---- A jail that is stopped stops ----

  /** The jail is on the list, or has its stop command still to take in, or has
      taken it in, or has panicked. */
  ghost predicate WillStop(t: Task) {
    t.listed || Stop in t.queue || t.stopped || t.work.dead
  }

  ghost predicate AllWillStop(s: System) {
    forall j :: j in s.tasks ==> WillStop(s.tasks[j])
  }

  lemma {:induction false} ReceiveStops(t: Task, db: T.Tables, inputs: Inputs)
    requires t.queue != [] && !t.stopped && !t.work.dead && WillStop(t)
    ensures WillStop(ReceiveTask(t, db, inputs))
  {
    assert t.queue == [t.queue[0]] + t.queue[1..];
  }

  lemma {:induction false} LineDoesNotRevive(t: Task, db: T.Tables, m: MatchResult, inputs: Inputs)
    requires WillStop(t) && !t.work.dead
    ensures WillStop(t.(work := ProcessLine(t.config, t.work, db, m, inputs)))
  {
  }

  lemma {:induction false} NextStops(s: System, a: Action)
    requires AllWillStop(s) && Enabled(s, a)
    ensures AllWillStop(Next(s, a))
  {
    match a {
      case Line(jail, m, inputs) => LineDoesNotRevive(s.tasks[jail], s.db, m, inputs);
      case Receive(jail, inputs) => ReceiveStops(s.tasks[jail], s.db, inputs);
      case StopJail(jail) =>
        var queue := s.tasks[jail].queue + [Stop];
        assert queue[|queue| - 1] == Stop;
      case _ =>
    }
  }

  /** In every reachable system, a jail that was taken off the list and has no
      command left has ended its loop. */
  lemma {:induction false} StoppedJailsStop(db: T.Tables, actions: seq<Action>, jail: string)
    requires IsRun(System(db, map[], []), actions)
    ensures var s := Run(System(db, map[], []), actions);
            jail in s.tasks && !s.tasks[jail].listed && s.tasks[jail].queue == [] ==>
              s.tasks[jail].stopped || s.tasks[jail].work.dead
  {
    StopsThroughout(System(db, map[], []), actions);
  }

  lemma {:induction false} StopsThroughout(s: System, actions: seq<Action>)
    requires AllWillStop(s) && IsRun(s, actions)
    ensures AllWillStop(Run(s, actions))
    decreases |actions|
  {
    if actions != [] {
      NextStops(s, actions[0]);
      StopsThroughout(Next(s, actions[0]), actions[1..]);
    }
  }

  // ---- No host lingers at the threshold ----

  ghost predicate Below(t: Task) {
    t.config.fail.maxretry < U32 && (!t.work.dead ==> FailsBelow(t.config.fail, t.work.fails))
  }

  ghost predicate AllBelow(s: System) {
    forall j :: j in s.tasks ==> Below(s.tasks[j])
  }

  lemma {:induction false} LineBelow(t: Task, db: T.Tables, m: MatchResult, inputs: Inputs)
    requires Below(t) && !t.work.dead
    ensures Below(t.(work := ProcessLine(t.config, t.work, db, m, inputs)))
  {
    LineKeepsBelow(t.config, t.work, db, m, inputs);
  }

  lemma {:induction false} ReceiveBelow(t: Task, db: T.Tables, inputs: Inputs)
    requires Below(t) && !t.work.dead && t.queue != []
    ensures Below(ReceiveTask(t, db, inputs))
  {
    CommandKeepsBelow(t.config, t.work, db, t.queue[0], inputs);
  }

  lemma {:induction false} TickBelow(t: Task, db: T.Tables, inputs: Inputs)
    requires Below(t) && !t.work.dead
    ensures Below(t.(work := PurgeExpired(t.config, t.work, inputs)))
  {
    CommandKeepsBelow(t.config, t.work, db, Stop, inputs);
  }

  lemma {:induction false} NextKeepsBelow(s: System, a: Action)
    requires AllBelow(s) && Enabled(s, a)
    ensures AllBelow(Next(s, a))
  {
    match a {
      case Line(jail, m, inputs) => LineBelow(s.tasks[jail], s.db, m, inputs);
      case Tick(jail, inputs) => TickBelow(s.tasks[jail], s.db, inputs);
      case Receive(jail, inputs) => ReceiveBelow(s.tasks[jail], s.db, inputs);
      case _ =>
    }
  }

  /** In every reachable system, every host of every jail that has not panicked
      is below the threshold. */
  lemma {:induction false} HostsStayBelow(s: System, actions: seq<Action>)
    requires AllBelow(s) && IsRun(s, actions)
    ensures AllBelow(Run(s, actions))
    decreases |actions|
  {
    if actions != [] {
      NextKeepsBelow(s, actions[0]);
      HostsStayBelow(Next(s, actions[0]), actions[1..]);
    }
  }

  /** A restore command that comes after its address was banned anew: it leaves
      the address banned, and its current ban in the store exactly when the
      restored ban is not over yet. Otherwise that new ban will not survive a
      restart. */
  lemma LateRestore(s: System, jail: string, inputs: Inputs)
    requires Inv(s) && Enabled(s, Receive(jail, inputs)) && s.tasks[jail].queue[0].RestoreBan?
    requires s.tasks[jail].queue[0].ip in s.tasks[jail].work.bans
    requires T.BipKey(jail, s.tasks[jail].queue[0].ip) in s.db.bips
    requires var command := s.tasks[jail].queue[0]; Restorable(command.time, command.bantime, inputs.clock)
    ensures var command := s.tasks[jail].queue[0];
            var after := Next(Next(s, Receive(jail, inputs)), MakeCall(jail));
            && command.ip in after.tasks[jail].work.bans
            && (T.BipKey(jail, command.ip) in after.db.bips <==>
                !RestoredTicket(command.ip, command.ipAddr, command.time, command.bantime, inputs.clock)
                  .IsExpired(inputs.now))
  {
  }
}
