/**
 A restart: the memory is lost, the store is read, and the jails take their
 restore commands. The store may hold anything, orphans and impossible
 durations included.
 */
module Restart {
  import opened Prelude
  import opened BanManager
  import opened Failures
  import opened JailTask
  import opened Lifecycle
  import opened Coverage
  import T = BanTables

  /** The two clock readings of a jail while it restores an address. */
  datatype Reading = Reading(clock: int, now: int)

  type Clock = T.BipKey -> Reading

  /** The ticket that a current ban comes back as. `parse` reads an address. */
  function TicketOf(db: T.Tables, k: T.BipKey, clock: Clock, parse: string -> Option<string>): BanTicket
    requires T.Joined(db, k)
  {
    RestoredTicket(k.ip, parse(k.ip), db.bips[k], T.RowOf(db, k).bantime, clock(k).clock)
  }

  /** Restoring it does not panic. */
  predicate CanRestore(db: T.Tables, k: T.BipKey, clock: Clock)
    requires T.Joined(db, k)
  {
    Restorable(db.bips[k], T.RowOf(db, k).bantime, clock(k).clock)
  }

  predicate Alive(db: T.Tables, k: T.BipKey, clock: Clock)
    requires T.Joined(db, k)
  {
    CanRestore(db, k, clock) && !TicketOf(db, k, clock, ip => None).IsExpired(clock(k).now)
  }

  /** A current ban that restoring finds to be over. */
  predicate IsOver(db: T.Tables, k: T.BipKey, clock: Clock) {
    T.Joined(db, k) && CanRestore(db, k, clock) && !Alive(db, k, clock)
  }

  /** An action of the restart: sending a restore command, or a jail taking it in. */
  ghost predicate RestartAction(s: System, a: Action, clock: Clock, parse: string -> Option<string>)
    requires Enabled(s, a)
  {
    match a
    case SendRestore(i, ipAddr) => ipAddr == parse(s.pending[i].ip)
    case Receive(jail, inputs) =>
      s.tasks[jail].queue[0].RestoreBan? ==>
        Reading(inputs.clock, inputs.now) == clock(T.BipKey(jail, s.tasks[jail].queue[0].ip))
    case MakeCall(_) => true
    case _ => false
  }

  ghost predicate RestartRun(s: System, actions: seq<Action>, clock: Clock, parse: string -> Option<string>)
    decreases |actions|
  {
    actions == []
    || (Enabled(s, actions[0]) && RestartAction(s, actions[0], clock, parse)
        && RestartRun(Next(s, actions[0]), actions[1..], clock, parse))
  }

  ghost function RestartResult(s: System, actions: seq<Action>, clock: Clock, parse: string -> Option<string>): System
    requires RestartRun(s, actions, clock, parse)
    decreases |actions|
  {
    if actions == [] then s else RestartResult(Next(s, actions[0]), actions[1..], clock, parse)
  }

  /** Every row has been sent, and taken in and dealt with unless its jail panicked. */
  ghost predicate Done(s: System) {
    && s.pending == []
    && forall j :: j in s.tasks ==>
         s.tasks[j].work.todo == [] && (s.tasks[j].queue == [] || s.tasks[j].work.dead)
  }

  // ---- What holds all along ----

  ghost predicate PendingFrom(db: T.Tables, rows: seq<T.DbBan>) {
    forall i :: 0 <= i < |rows| ==>
      var k := T.BipKey(rows[i].jail, rows[i].ip);
      T.Joined(db, k) && rows[i] == T.RowOf(db, k)
  }

  ghost predicate CommandFrom(db: T.Tables, jail: string, command: Command, parse: string -> Option<string>) {
    && command.RestoreBan?
    && var k := T.BipKey(jail, command.ip);
       T.Joined(db, k) && command == RestoreBan(k.ip, parse(k.ip), db.bips[k], T.RowOf(db, k).bantime)
  }

  ghost predicate CallFrom(db: T.Tables, jail: string, call: Call, clock: Clock, parse: string -> Option<string>) {
    match call
    case DbAdd(_, _, _) => false
    case BanAdd(ticket) =>
      var k := T.BipKey(jail, ticket.host);
      T.Joined(db, k) && Alive(db, k, clock) && ticket == TicketOf(db, k, clock, parse)
    case DbRemove(ip) => IsOver(db, T.BipKey(jail, ip), clock)
  }

  /** Some current ban of the jail cannot be restored. */
  ghost predicate Fatal(db: T.Tables, jail: string, clock: Clock) {
    exists k: T.BipKey :: T.Joined(db, k) && k.jail == jail && !CanRestore(db, k, clock)
  }

  /** A task only holds what the store held when it was read. */
  ghost predicate TaskFrom(db: T.Tables, jail: string, t: Task, clock: Clock, parse: string -> Option<string>) {
    && t.listed && !t.stopped
    && (t.work.dead ==> Fatal(db, jail, clock))
    && (forall i :: 0 <= i < |t.queue| ==> CommandFrom(db, jail, t.queue[i], parse))
    && (forall i :: 0 <= i < |t.work.todo| ==> CallFrom(db, jail, t.work.todo[i], clock, parse))
    && (forall ip :: ip in t.work.bans ==>
          var k := T.BipKey(jail, ip);
          T.Joined(db, k) && Alive(db, k, clock) && t.work.bans[ip] == TicketOf(db, k, clock, parse))
  }

  /** The store has lost nothing but current bans that are over. */
  ghost predicate StoreFrom(db: T.Tables, s: System, k: T.BipKey, clock: Clock) {
    && (k in s.db.bips ==> k in db.bips && s.db.bips[k] == db.bips[k])
    && (k in s.db.bips && T.Joined(db, k) ==> T.Joined(s.db, k) && T.RowOf(s.db, k) == T.RowOf(db, k))
    && (k in db.bips && !(k.jail in s.tasks && IsOver(db, k, clock)) ==> k in s.db.bips)
  }

  /** An address not in the ban map, whose row is in the store, is still on its way. */
  ghost predicate OnItsWay(s: System, k: T.BipKey)
    requires k.jail in s.tasks
  {
    || Settled(s.tasks[k.jail].work.todo, k.ip)
    || Queued(s.tasks[k.jail].queue, k.ip)
    || Pending(s.pending, k.jail, k.ip)
  }

  ghost predicate InSight(db: T.Tables, s: System, k: T.BipKey) {
    T.Joined(db, k) && k in s.db.bips && k.jail in s.tasks && !s.tasks[k.jail].work.dead ==>
      k.ip in s.tasks[k.jail].work.bans || OnItsWay(s, k)
  }

  ghost predicate RestartInv(db: T.Tables, s: System, clock: Clock, parse: string -> Option<string>) {
    && PendingFrom(db, s.pending)
    && (forall j :: j in s.tasks ==> TaskFrom(db, j, s.tasks[j], clock, parse))
    && (forall k {:trigger StoreFrom(db, s, k, clock)} :: StoreFrom(db, s, k, clock))
    && (forall k {:trigger InSight(db, s, k)} :: InSight(db, s, k))
  }

  lemma {:induction false} RowsArePending(db: T.Tables, rows: seq<T.DbBan>)
    requires T.IsListing(db, rows)
    ensures PendingFrom(db, rows)
    ensures forall k :: T.Joined(db, k) ==> Pending(rows, k.jail, k.ip)
  {
    T.ListingIsCurrentBans(db, rows);
    forall i | 0 <= i < |rows|
      ensures T.Joined(db, T.BipKey(rows[i].jail, rows[i].ip))
      ensures rows[i] == T.RowOf(db, T.BipKey(rows[i].jail, rows[i].ip))
    {
      assert rows[i] in rows;
    }
    forall k | T.Joined(db, k)
      ensures Pending(rows, k.jail, k.ip)
    {
      var row := T.RowOf(db, k);
      assert row in rows;
      var i :| 0 <= i < |rows| && rows[i] == row;
    }
  }

  lemma {:induction false} ReadStarts(s: System, rows: seq<T.DbBan>, clock: Clock, parse: string -> Option<string>)
    requires s.pending == [] && Enabled(s, ReadStore(rows))
    requires forall j :: j in s.tasks ==> s.tasks[j] == FreshTask(s.tasks[j].config)
    ensures RestartInv(s.db, Next(s, ReadStore(rows)), clock, parse)
  {
    RowsArePending(s.db, rows);
    assert Next(s, ReadStore(rows)).pending == rows;
  }

  lemma {:induction false} SendStep(db: T.Tables, s: System, i: nat, clock: Clock, parse: string -> Option<string>)
    requires RestartInv(db, s, clock, parse)
    requires i < |s.pending|
    ensures RestartInv(db, Next(s, SendRestore(i, parse(s.pending[i].ip))), clock, parse)
  {
    var row := s.pending[i];
    var command := RestoreCommand(row, parse(row.ip));
    var after := Next(s, SendRestore(i, parse(row.ip)));
    forall k {:trigger StoreFrom(db, after, k, clock)}
      ensures StoreFrom(db, after, k, clock)
    {
      assert StoreFrom(db, s, k, clock);
    }
    forall k {:trigger InSight(db, after, k)}
      ensures InSight(db, after, k)
    {
      assert InSight(db, s, k);
      if k.jail in s.tasks {
        QueuedBefore(s.tasks[k.jail].queue, command, k.ip);
        if Pending(s.pending, k.jail, k.ip) {
          PendingWithout(s.pending, i, k.jail, k.ip);
        }
      }
    }
  }

  /** What taking in a restore command makes of a task. */
  lemma {:induction false} RestoreTask(db: T.Tables, jail: string, t: Task, now: T.Tables, inputs: Inputs, clock: Clock,
                                       parse: string -> Option<string>)
    requires TaskFrom(db, jail, t, clock, parse) && t.queue != [] && t.work.todo == [] && !t.work.dead
    requires Reading(inputs.clock, inputs.now) == clock(T.BipKey(jail, t.queue[0].ip))
    ensures TaskFrom(db, jail, ReceiveTask(t, now, inputs), clock, parse)
  {
    var command := t.queue[0];
    assert CommandFrom(db, jail, command, parse);
    var k := T.BipKey(jail, command.ip);
    assert Alive(db, k, clock) <==> CanRestore(db, k, clock) && !TicketOf(db, k, clock, parse).IsExpired(clock(k).now);
  }

  lemma {:induction false} ReceiveStep(db: T.Tables, s: System, jail: string, inputs: Inputs, clock: Clock,
                                       parse: string -> Option<string>)
    requires RestartInv(db, s, clock, parse)
    requires Enabled(s, Receive(jail, inputs)) && RestartAction(s, Receive(jail, inputs), clock, parse)
    ensures RestartInv(db, Next(s, Receive(jail, inputs)), clock, parse)
  {
    var after := Next(s, Receive(jail, inputs));
    var t := s.tasks[jail];
    var command := t.queue[0];
    assert CommandFrom(db, jail, command, parse);
    RestoreTask(db, jail, t, s.db, inputs, clock, parse);
    forall k {:trigger StoreFrom(db, after, k, clock)}
      ensures StoreFrom(db, after, k, clock)
    {
      assert StoreFrom(db, s, k, clock);
    }
    forall k {:trigger InSight(db, after, k)}
      ensures InSight(db, after, k)
    {
      assert InSight(db, s, k);
      if k.jail == jail && Queued(t.queue, k.ip) {
        QueuedBehind(t.queue, k.ip);
        if Restores(command, k.ip) {
          RestoreTracks(t.config, t.work, s.db, command, inputs, k.ip);
        }
      }
    }
  }

  lemma {:induction false} CallStores(db: T.Tables, s: System, jail: string, k: T.BipKey, clock: Clock,
                                      parse: string -> Option<string>)
    requires RestartInv(db, s, clock, parse) && Enabled(s, MakeCall(jail))
    ensures StoreFrom(db, Next(s, MakeCall(jail)), k, clock)
  {
    assert StoreFrom(db, s, k, clock);
    assert CallFrom(db, jail, s.tasks[jail].work.todo[0], clock, parse);
  }

  lemma {:induction false} CallStep(db: T.Tables, s: System, jail: string, clock: Clock, parse: string -> Option<string>)
    requires RestartInv(db, s, clock, parse) && Enabled(s, MakeCall(jail))
    ensures RestartInv(db, Next(s, MakeCall(jail)), clock, parse)
  {
    var after := Next(s, MakeCall(jail));
    var t := s.tasks[jail];
    assert CallFrom(db, jail, t.work.todo[0], clock, parse);
    forall k {:trigger StoreFrom(db, after, k, clock)}
      ensures StoreFrom(db, after, k, clock)
    {
      CallStores(db, s, jail, k, clock, parse);
    }
    forall k {:trigger InSight(db, after, k)}
      ensures InSight(db, after, k)
    {
      CallInSight(db, s, jail, k, clock, parse);
    }
    assert forall i :: 0 <= i < |t.work.todo| - 1 ==> t.work.todo[1..][i] == t.work.todo[i + 1];
  }

  lemma {:induction false} CallInSight(db: T.Tables, s: System, jail: string, k: T.BipKey, clock: Clock,
                                       parse: string -> Option<string>)
    requires RestartInv(db, s, clock, parse) && Enabled(s, MakeCall(jail))
    ensures InSight(db, Next(s, MakeCall(jail)), k)
  {
    var t := s.tasks[jail];
    assert InSight(db, s, k) && CallFrom(db, jail, t.work.todo[0], clock, parse);
    assert k in Next(s, MakeCall(jail)).db.bips ==> k in s.db.bips;
    if k.jail == jail && k in Next(s, MakeCall(jail)).db.bips && (k.ip in t.work.bans || Settled(t.work.todo, k.ip)) {
      assert k == T.BipKey(jail, k.ip);
      CallSettles(jail, s.db, t.work, k.ip);
    }
  }

  lemma {:induction false} CallSettles(jail: string, db: T.Tables, w: Work, ip: string)
    requires w.todo != [] && !w.todo[0].DbAdd?
    requires T.BipKey(jail, ip) in CallDb(jail, db, w.todo[0]).bips
    requires ip in w.bans || Settled(w.todo, ip)
    ensures ip in CallBans(w.bans, w.todo[0]) || Settled(w.todo[1..], ip)
  {
    if ip !in w.bans {
      var i :| 0 <= i < |w.todo| && Settles(w.todo[i], ip);
      if i > 0 {
        assert Settles(w.todo[1..][i - 1], ip);
      }
    }
  }

  lemma {:induction false} RestartKeeps(db: T.Tables, s: System, actions: seq<Action>, clock: Clock,
                                        parse: string -> Option<string>)
    requires RestartInv(db, s, clock, parse) && RestartRun(s, actions, clock, parse)
    ensures RestartInv(db, RestartResult(s, actions, clock, parse), clock, parse)
    ensures RestartResult(s, actions, clock, parse).tasks.Keys == s.tasks.Keys
    decreases |actions|
  {
    if actions != [] {
      StepKeeps(db, s, actions[0], clock, parse);
      RestartKeeps(db, Next(s, actions[0]), actions[1..], clock, parse);
    }
  }

  lemma {:induction false} StepKeeps(db: T.Tables, s: System, a: Action, clock: Clock, parse: string -> Option<string>)
    requires RestartInv(db, s, clock, parse) && Enabled(s, a) && RestartAction(s, a, clock, parse)
    ensures RestartInv(db, Next(s, a), clock, parse) && Next(s, a).tasks.Keys == s.tasks.Keys
  {
    match a {
      case SendRestore(i, _) => SendStep(db, s, i, clock, parse);
      case Receive(jail, inputs) => ReceiveStep(db, s, jail, inputs, clock, parse);
      case MakeCall(jail) => CallStep(db, s, jail, clock, parse);
    }
  }

  // ---- A restart ends ----

  /** Until everything is dealt with there is something to do. */
  lemma {:induction false} RestartGoesOn(db: T.Tables, s: System, clock: Clock, parse: string -> Option<string>)
    returns (a: Action)
    requires RestartInv(db, s, clock, parse) && !Done(s)
    ensures Enabled(s, a) && RestartAction(s, a, clock, parse)
  {
    if s.pending != [] {
      a := SendRestore(0, parse(s.pending[0].ip));
    } else {
      var j :| j in s.tasks && !(s.tasks[j].work.todo == [] && (s.tasks[j].queue == [] || s.tasks[j].work.dead));
      if s.tasks[j].work.todo != [] {
        a := MakeCall(j);
      } else {
        var command := s.tasks[j].queue[0];
        assert CommandFrom(db, j, command, parse);
        var reading := clock(T.BipKey(j, command.ip));
        a := Receive(j, Inputs(reading.clock, reading.now, 0, None, None, false, "", []));
      }
    }
  }

  /** What a task still has to do: a queued command leaves one call. */
  function Load(t: Task): nat {
    2 * |t.queue| + |t.work.todo|
  }

  ghost function Loads(tasks: map<string, Task>): nat
    decreases tasks
  {
    if tasks == map[] then 0
    else
      var j := Any(tasks.Keys);
      Load(tasks[j]) + Loads(tasks - {j})
  }

  ghost function Any(s: set<string>): (j: string)
    requires s != {}
    ensures j in s
  {
    var j :| j in s;
    j
  }

  lemma {:induction false} LoadsSplit(tasks: map<string, Task>, j: string)
    requires j in tasks
    ensures Loads(tasks) == Load(tasks[j]) + Loads(tasks - {j})
    decreases tasks
  {
    var first := Any(tasks.Keys);
    if first != j {
      LoadsSplit(tasks - {first}, j);
      LoadsSplit(tasks - {j}, first);
      assert tasks - {first} - {j} == tasks - {j} - {first};
    }
  }

  lemma {:induction false} LoadsUpdate(tasks: map<string, Task>, j: string, t: Task)
    requires j in tasks
    ensures Loads(tasks[j := t]) + Load(tasks[j]) == Loads(tasks) + Load(t)
  {
    LoadsSplit(tasks, j);
    LoadsSplit(tasks[j := t], j);
    assert tasks[j := t] - {j} == tasks - {j};
  }

  /** Every row takes at most three actions: sent, taken in, dealt with. */
  ghost function Left(s: System): nat {
    3 * |s.pending| + Loads(s.tasks)
  }

  lemma {:induction false} StepDecreases(db: T.Tables, s: System, a: Action, clock: Clock, parse: string -> Option<string>)
    requires RestartInv(db, s, clock, parse) && Enabled(s, a) && RestartAction(s, a, clock, parse)
    ensures Left(Next(s, a)) < Left(s)
  {
    match a {
      case SendRestore(i, ipAddr) =>
        var row := s.pending[i];
        if row.jail in s.tasks {
          LoadsUpdate(s.tasks, row.jail, Enqueue(s.tasks[row.jail], RestoreCommand(row, ipAddr)));
        }
      case Receive(jail, inputs) =>
        assert CommandFrom(db, jail, s.tasks[jail].queue[0], parse);
        LoadsUpdate(s.tasks, jail, ReceiveTask(s.tasks[jail], s.db, inputs));
      case MakeCall(jail) =>
        LoadsUpdate(s.tasks, jail, CallTask(s.tasks[jail]));
    }
  }

  lemma {:induction false} RunIsShort(db: T.Tables, s: System, actions: seq<Action>, clock: Clock, parse: string -> Option<string>)
    requires RestartInv(db, s, clock, parse) && RestartRun(s, actions, clock, parse)
    ensures |actions| <= Left(s)
    decreases |actions|
  {
    if actions != [] {
      StepDecreases(db, s, actions[0], clock, parse);
      StepKeeps(db, s, actions[0], clock, parse);
      RunIsShort(db, Next(s, actions[0]), actions[1..], clock, parse);
    }
  }

  lemma {:induction false} NothingQueued(tasks: map<string, Task>)
    requires forall j :: j in tasks ==> Load(tasks[j]) == 0
    ensures Loads(tasks) == 0
    decreases tasks
  {
    if tasks != map[] {
      NothingQueued(tasks - {Any(tasks.Keys)});
    }
  }

  /** Every restart ends: it has at most three actions for each row, and one
      that cannot go on has dealt with everything. */
  lemma {:induction false} RestartEnds(s: System, rows: seq<T.DbBan>, actions: seq<Action>, clock: Clock,
                                       parse: string -> Option<string>)
    requires s.pending == [] && Enabled(s, ReadStore(rows))
    requires forall j :: j in s.tasks ==> s.tasks[j] == FreshTask(s.tasks[j].config)
    requires RestartRun(Next(s, ReadStore(rows)), actions, clock, parse)
    ensures |actions| <= 3 * |rows|
    ensures var end := RestartResult(Next(s, ReadStore(rows)), actions, clock, parse);
            (forall a :: !(Enabled(end, a) && RestartAction(end, a, clock, parse))) ==> Done(end)
  {
    var read := Next(s, ReadStore(rows));
    ReadStarts(s, rows, clock, parse);
    NothingQueued(read.tasks);
    RunIsShort(s.db, read, actions, clock, parse);
    RestartKeeps(s.db, read, actions, clock, parse);
    var end := RestartResult(read, actions, clock, parse);
    if !Done(end) {
      var a := RestartGoesOn(s.db, end, clock, parse);
    }
  }

  // ---- The end of a restart ----

  lemma {:induction false} DoneStore(db: T.Tables, end: System, k: T.BipKey, clock: Clock, parse: string -> Option<string>)
    requires RestartInv(db, end, clock, parse) && Done(end)
    ensures k in end.db.bips ==> k in db.bips && end.db.bips[k] == db.bips[k]
    ensures k in db.bips && !(k.jail in end.tasks && IsOver(db, k, clock)) ==> k in end.db.bips
    ensures k.jail in end.tasks && !end.tasks[k.jail].work.dead && IsOver(db, k, clock) ==> k !in end.db.bips
    ensures k in end.db.bips && T.Joined(db, k) ==> T.Joined(end.db, k) && T.RowOf(end.db, k) == T.RowOf(db, k)
  {
    assert StoreFrom(db, end, k, clock) && InSight(db, end, k);
    if k in end.db.bips && k.jail in end.tasks && !end.tasks[k.jail].work.dead && T.Joined(db, k) {
      assert !OnItsWay(end, k);
      assert TaskFrom(db, k.jail, end.tasks[k.jail], clock, parse);
    }
  }

  lemma {:induction false} DoneTask(db: T.Tables, end: System, jail: string, clock: Clock, parse: string -> Option<string>)
    requires RestartInv(db, end, clock, parse) && Done(end) && jail in end.tasks
    ensures end.tasks[jail].work.dead <==> Fatal(db, jail, clock)
    ensures !end.tasks[jail].work.dead ==>
              forall ip :: ip in end.tasks[jail].work.bans <==>
                T.Joined(db, T.BipKey(jail, ip)) && Alive(db, T.BipKey(jail, ip), clock)
    ensures forall ip :: ip in end.tasks[jail].work.bans ==>
              T.Joined(db, T.BipKey(jail, ip)) && Alive(db, T.BipKey(jail, ip), clock)
              && end.tasks[jail].work.bans[ip] == TicketOf(db, T.BipKey(jail, ip), clock, parse)
  {
    assert TaskFrom(db, jail, end.tasks[jail], clock, parse);
    if !end.tasks[jail].work.dead {
      forall k: T.BipKey | T.Joined(db, k) && k.jail == jail && !IsOver(db, k, clock)
        ensures k.ip in end.tasks[jail].work.bans
      {
        assert StoreFrom(db, end, k, clock) && InSight(db, end, k);
        assert !OnItsWay(end, k);
      }
    }
  }

  /** What a restart from `db` has made of a pair.
      A jail panics exactly when one of its current bans cannot be restored. Any
      other ends with its ban map equal to its current bans that had a row and
      were not over when it took them in, and with `bips` reduced by exactly
      those that were over: orphans stay, in `bips` and in no map. What is left
      keeps its row, and jails that were not started lose nothing. */
  ghost predicate Restored(db: T.Tables, end: System, k: T.BipKey, clock: Clock, parse: string -> Option<string>) {
    var started := k.jail in end.tasks;
    var panicked := started && end.tasks[k.jail].work.dead;
    && (started ==>
         var bans := end.tasks[k.jail].work.bans;
         && (panicked <==> Fatal(db, k.jail, clock))
         && (k.ip in bans ==> T.Joined(db, k) && Alive(db, k, clock) && bans[k.ip] == TicketOf(db, k, clock, parse))
         && (!panicked && T.Joined(db, k) && Alive(db, k, clock) ==> k.ip in bans))
    && (k in end.db.bips ==> k in db.bips && end.db.bips[k] == db.bips[k])
    && (k in db.bips && !(started && IsOver(db, k, clock)) ==> k in end.db.bips)
    && (started && !panicked && IsOver(db, k, clock) ==> k !in end.db.bips)
    && (k in end.db.bips && T.Joined(db, k) ==> T.Joined(end.db, k) && T.RowOf(end.db, k) == T.RowOf(db, k))
  }

  lemma {:induction false} DoneIsRestored(db: T.Tables, end: System, k: T.BipKey, clock: Clock, parse: string -> Option<string>)
    requires RestartInv(db, end, clock, parse) && Done(end)
    ensures Restored(db, end, k, clock, parse)
  {
    DoneStore(db, end, k, clock, parse);
    if k.jail in end.tasks {
      DoneTask(db, end, k.jail, clock, parse);
      assert T.BipKey(k.jail, k.ip) == k;
    }
  }

  /** The round trip, from any tables: freshly started jails, the store read, and
      its rows sent and taken in, in any order between jails. */
  lemma {:induction false} RestartRoundTrip(s: System, rows: seq<T.DbBan>, actions: seq<Action>, clock: Clock,
                                            parse: string -> Option<string>, k: T.BipKey)
    requires s.pending == [] && Enabled(s, ReadStore(rows))
    requires forall j :: j in s.tasks ==> s.tasks[j] == FreshTask(s.tasks[j].config)
    requires RestartRun(Next(s, ReadStore(rows)), actions, clock, parse)
    requires Done(RestartResult(Next(s, ReadStore(rows)), actions, clock, parse))
    ensures var end := RestartResult(Next(s, ReadStore(rows)), actions, clock, parse);
            end.tasks.Keys == s.tasks.Keys && Restored(s.db, end, k, clock, parse)
  {
    var read := Next(s, ReadStore(rows));
    ReadStarts(s, rows, clock, parse);
    RestartKeeps(s.db, read, actions, clock, parse);
    DoneIsRestored(s.db, RestartResult(read, actions, clock, parse), k, clock, parse);
  }

  // ---- One ban through the store ----

  /** The command brings a ban back that ends no later than the ticket's, and
      less than a second earlier; it does not panic if asking the ticket did not. */
  predicate ComesBack(ticket: BanTicket, command: Command, clock: int)
    requires command.RestoreBan?
  {
    var restored := RestoredTicket(command.ip, command.ipAddr, command.time, command.bantime, clock);
    && restored.host == ticket.host
    && ticket.bantime.Some? && restored.bantime.Some?
    && restored.Expires().value <= ticket.Expires().value < restored.Expires().value + NANOS
    && (ticket.HasExpiry() ==> Restorable(command.time, command.bantime, clock))
  }

  /** A ban that `issue_ban` has written, and a crash at any time after that:
      the store lists it, and whatever the clock says it comes back. */
  lemma {:induction false} StoredBanComesBack(s: System, jail: string, ticket: BanTicket, data: string, rows: seq<T.DbBan>,
                                              ipAddr: Option<string>, clock: int)
    requires jail in s.tasks && s.tasks[jail].work.todo ==
               [DbAdd(ticket.host, Timestamp(ticket.timeOfBan), T.BanInfo(ticket.bantime, data)), BanAdd(ticket)]
    requires InCalendar(ticket.timeOfBan) && ticket.bantime.Some? && Seconds(ticket.bantime.value).Some?
    requires T.IsListing(Next(Next(s, MakeCall(jail)), Crash(Between)).db, rows)
    ensures exists i :: 0 <= i < |rows| && rows[i].jail == jail && rows[i].ip == ticket.host
    ensures forall i :: 0 <= i < |rows| && rows[i].jail == jail && rows[i].ip == ticket.host ==>
              ComesBack(ticket, RestoreCommand(rows[i], ipAddr), clock)
  {
    var db := Next(Next(s, MakeCall(jail)), Crash(Between)).db;
    var k := T.BipKey(jail, ticket.host);
    RowsArePending(db, rows);
    assert T.Joined(db, k);
    WholeSecondsInCalendar(ticket.timeOfBan);
    if ticket.HasExpiry() {
      EarlierInCalendar(ticket.timeOfBan, ticket.bantime.value);
    }
  }

  /** So it is for every ban that a line issues. */
  lemma {:induction false} IssuedBanComesBack(s: System, jail: string, m: MatchResult, inputs: Inputs, issued: System,
                                              ticket: BanTicket, rows: seq<T.DbBan>, ipAddr: Option<string>, clock: int)
    requires Enabled(s, Line(jail, m, inputs)) && issued == Next(s, Line(jail, m, inputs)) && InCalendar(inputs.now)
    requires |issued.tasks[jail].work.todo| == 2 && issued.tasks[jail].work.todo[1] == BanAdd(ticket)
    requires T.IsListing(Next(Next(issued, MakeCall(jail)), Crash(Between)).db, rows)
    ensures ticket.timeOfBan == inputs.now
    ensures exists i :: 0 <= i < |rows| && rows[i].jail == jail && rows[i].ip == ticket.host
    ensures forall i :: 0 <= i < |rows| && rows[i].jail == jail && rows[i].ip == ticket.host ==>
              ComesBack(ticket, RestoreCommand(rows[i], ipAddr), clock)
  {
    IssuedCalls(s.tasks[jail].config, s.tasks[jail].work, s.db, m, inputs, ticket);
    StoredBanComesBack(issued, jail, ticket, inputs.data, rows, ipAddr, clock);
  }

  lemma {:induction false} IssuedCalls(config: JailConfig, w: Work, db: T.Tables, m: MatchResult, inputs: Inputs, ticket: BanTicket)
    requires w.todo == []
    requires var todo := ProcessLine(config, w, db, m, inputs).todo; |todo| == 2 && todo[1] == BanAdd(ticket)
    ensures ProcessLine(config, w, db, m, inputs).todo ==
            [DbAdd(ticket.host, Timestamp(ticket.timeOfBan), T.BanInfo(ticket.bantime, inputs.data)), BanAdd(ticket)]
    ensures ticket.timeOfBan == inputs.now && ticket.bantime.Some? && Seconds(ticket.bantime.value).Some?
  {
  }

  lemma {:induction false} WholeSecondsInCalendar(time: int)
    requires InCalendar(time)
    ensures InCalendar(Timestamp(time) * NANOS)
    ensures Timestamp(time) * NANOS <= time < Timestamp(time) * NANOS + NANOS
  {
  }

  lemma {:induction false} EarlierInCalendar(time: int, seconds: int)
    requires InCalendar(time) && InCalendar(time + seconds * NANOS)
    ensures InCalendar(Timestamp(time) * NANOS + seconds * NANOS)
  {
    assert (Timestamp(time) + seconds + 8_334_601_228_800 + 1) * NANOS > 0;
  }

  // ---- Sending in one go ----

  /** The restore commands for one jail, in the order of the rows. */
  function RestoreCommands(rows: seq<T.DbBan>, jail: string, parse: string -> Option<string>): seq<Command>
    decreases |rows|
  {
    if rows == [] then []
    else if rows[0].jail == jail
    then [RestoreCommand(rows[0], parse(rows[0].ip))] + RestoreCommands(rows[1..], jail, parse)
    else RestoreCommands(rows[1..], jail, parse)
  }

  /** A task that the rows have been sent to. */
  function Sent(t: Task, jail: string, rows: seq<T.DbBan>, parse: string -> Option<string>): Task {
    if t.listed then t.(queue := t.queue + RestoreCommands(rows, jail, parse)) else t
  }

  lemma {:induction false} SentStep(t: Task, jail: string, rows: seq<T.DbBan>, parse: string -> Option<string>)
    requires rows != []
    ensures Sent(t, jail, rows, parse) ==
            Sent(if t.listed && rows[0].jail == jail then Enqueue(t, RestoreCommand(rows[0], parse(rows[0].ip))) else t,
                 jail, rows[1..], parse)
  {
    var command := RestoreCommand(rows[0], parse(rows[0].ip));
    var later := RestoreCommands(rows[1..], jail, parse);
    assert t.queue + ([command] + later) == t.queue + [command] + later;
  }

  ghost predicate AllSent(before: System, after: System, rows: seq<T.DbBan>, parse: string -> Option<string>) {
    && after.tasks.Keys == before.tasks.Keys
    && forall j :: j in before.tasks ==> after.tasks[j] == Sent(before.tasks[j], j, rows, parse)
  }

  lemma {:induction false} SendFirst(s: System, rows: seq<T.DbBan>, rest: seq<T.DbBan>, end: System,
                                     parse: string -> Option<string>)
    requires s.pending == rows + rest && rows != []
    requires AllSent(Next(s, SendRestore(0, parse(rows[0].ip))), end, rows[1..], parse)
    ensures Next(s, SendRestore(0, parse(rows[0].ip))).pending == rows[1..] + rest
    ensures AllSent(s, end, rows, parse)
  {
    var next := Next(s, SendRestore(0, parse(rows[0].ip)));
    forall j | j in s.tasks
      ensures end.tasks[j] == Sent(s.tasks[j], j, rows, parse)
    {
      SentStep(s.tasks[j], j, rows, parse);
      assert end.tasks[j] == Sent(next.tasks[j], j, rows[1..], parse);
    }
  }

  /** Sending the rows one after the other, with nothing in between, appends
      to each listed jail's queue its own commands. */
  lemma {:induction false} SendAll(s: System, actions: seq<Action>, rows: seq<T.DbBan>, rest: seq<T.DbBan>,
                                   parse: string -> Option<string>)
    requires s.pending == rows + rest
    requires actions == seq(|rows|, i requires 0 <= i < |rows| => SendRestore(0, parse(rows[i].ip)))
    ensures IsRun(s, actions)
    ensures Run(s, actions).db == s.db && Run(s, actions).pending == rest
    ensures AllSent(s, Run(s, actions), rows, parse)
    decreases |rows|
  {
    if rows == [] {
      forall j | j in s.tasks
        ensures Sent(s.tasks[j], j, rows, parse) == s.tasks[j]
      {
        assert s.tasks[j].queue + [] == s.tasks[j].queue;
      }
    } else {
      var next := Next(s, actions[0]);
      assert next.pending == rows[1..] + rest;
      SendAll(next, actions[1..], rows[1..], rest, parse);
      SendFirst(s, rows, rest, Run(next, actions[1..]), parse);
    }
  }
}
