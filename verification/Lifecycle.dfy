/**
 The jails, the server and the ban store running together.

 Every action is one atomic step: a jail beginning an iteration, one of its
 calls on a manager or the store, or one step of a server operation. A run is
 any sequence of enabled actions, so calls of different tasks interleave freely.
 A call on the store is two statements; only a crash can come between them.
 */
module Lifecycle {
  import opened Prelude
  import opened Numbers
  import opened Failures
  import opened BanManager
  import opened JailTask
  import T = BanTables
  import U = StoreSteps

  /** A jail with its queue of commands.
      `listed`: the server still hands the jail out.
      `covered`: the server has read the store for it since it was started.
      `stopped`: it has taken its stop command. */
  datatype Task = Task(
    config: JailConfig,
    work: Work,
    queue: seq<Command>,
    listed: bool,
    covered: bool,
    stopped: bool)

  /** `pending`: rows read from the store whose restore commands are not sent yet. */
  datatype System = System(db: T.Tables, tasks: map<string, Task>, pending: seq<T.DbBan>)

  datatype Action =
    | StartJail(config: JailConfig)
    | StopJail(jail: string)
    | Send(jail: string, command: Command)
    | ReadStore(rows: seq<T.DbBan>)
    | SendRestore(i: nat, ipAddr: Option<string>)
    | DropIp(ip: string)
    | DropAll
    | Line(jail: string, m: MatchResult, inputs: Inputs)
    | Tick(jail: string, inputs: Inputs)
    | Receive(jail: string, inputs: Inputs)
    | MakeCall(jail: string)
    | Exit(jail: string)
    | Crash(where: Where)

  /** Where a crash falls: between calls on the store, or in one of them after
      its first statement. */
  datatype Where = Between | InCall(jail: string) | InDropIp(ip: string) | InDropAll

  function FreshTask(config: JailConfig): Task {
    Task(config, Work(FailState(map[], map[]), map[], [], false), [], true, false, false)
  }

  /** A jail between two iterations. */
  predicate Idle(s: System, jail: string) {
    jail in s.tasks && s.tasks[jail].work.todo == [] && !s.tasks[jail].work.dead && !s.tasks[jail].stopped
  }

  /** A task has ended: it took its stop command, or panicked. */
  predicate Ended(t: Task) {
    t.work.todo == [] && (t.stopped || (t.work.dead && !t.listed))
  }

  ghost predicate Enabled(s: System, a: Action) {
    match a
    case StartJail(config) => config.name !in s.tasks && config.fail.maxretry < U32
    case StopJail(jail) => jail in s.tasks && s.tasks[jail].listed
    case Send(jail, command) => jail in s.tasks && !command.RestoreBan? && !command.Stop?
    case ReadStore(rows) => T.IsListing(s.db, rows)
    case SendRestore(i, _) => i < |s.pending|
    case DropIp(_) => true
    case DropAll => true
    case Line(jail, _, _) => Idle(s, jail)
    case Tick(jail, inputs) =>
      Idle(s, jail) && Ordered(s.tasks[jail].work, Stop, inputs)
    case Receive(jail, inputs) =>
      Idle(s, jail) && s.tasks[jail].queue != [] && Ordered(s.tasks[jail].work, s.tasks[jail].queue[0], inputs)
    case MakeCall(jail) => jail in s.tasks && s.tasks[jail].work.todo != []
    case Exit(jail) => jail in s.tasks && Ended(s.tasks[jail])
    case Crash(where) =>
      where.InCall? ==>
        where.jail in s.tasks && s.tasks[where.jail].work.todo != [] && !s.tasks[where.jail].work.todo[0].BanAdd?
  }

  /** The store call that a jail's call is, if it is one. */
  function EditsOf(jail: string, call: Call): seq<U.Edit> {
    match call
    case DbAdd(ip, time, info) => [U.Add(jail, ip, time, info)]
    case DbRemove(ip) => [U.Remove(jail, ip)]
    case BanAdd(_) => []
  }

  /** What a crash leaves of the store. */
  ghost function CutStore(s: System, where: Where): T.Tables
    requires Enabled(s, Crash(where))
  {
    match where
    case Between => s.db
    case InCall(jail) => U.FirstHalf(s.db, EditsOf(jail, s.tasks[jail].work.todo[0])[0])
    case InDropIp(ip) => U.FirstHalf(s.db, U.RemoveIp(ip))
    case InDropAll => U.FirstHalf(s.db, U.RemoveAll)
  }

  function Enqueue(t: Task, command: Command): Task {
    t.(queue := t.queue + [command])
  }

  function RestoreCommand(row: T.DbBan, ipAddr: Option<string>): Command {
    RestoreBan(row.ip, ipAddr, row.time, row.bantime)
  }

  function ReceiveTask(t: Task, db: T.Tables, inputs: Inputs): Task
    requires t.queue != []
  {
    t.(work := Obey(t.config, t.work, db, t.queue[0], inputs), queue := t.queue[1..], stopped := t.queue[0].Stop?)
  }

  function CallTask(t: Task): Task
    requires t.work.todo != []
  {
    t.(work := t.work.(bans := CallBans(t.work.bans, t.work.todo[0]), todo := t.work.todo[1..]))
  }

  ghost function Next(s: System, a: Action): System
    requires Enabled(s, a)
  {
    match a
    case StartJail(config) => s.(tasks := s.tasks[config.name := FreshTask(config)])
    case StopJail(jail) =>
      s.(tasks := s.tasks[jail := Enqueue(s.tasks[jail], Stop).(listed := false, covered := false)])
    case Send(jail, command) => s.(tasks := s.tasks[jail := Enqueue(s.tasks[jail], command)])
    case ReadStore(rows) =>
      s.(tasks := map j | j in s.tasks :: s.tasks[j].(covered := s.tasks[j].listed), pending := s.pending + rows)
    case SendRestore(i, ipAddr) =>
      var row := s.pending[i];
      System(s.db,
             if row.jail in s.tasks && s.tasks[row.jail].listed
             then s.tasks[row.jail := Enqueue(s.tasks[row.jail], RestoreCommand(row, ipAddr))] else s.tasks,
             s.pending[..i] + s.pending[i + 1..])
    case DropIp(ip) => s.(db := T.RemoveBanAllJails(s.db, ip))
    case DropAll => s.(db := T.RemoveAllBans(s.db))
    case Line(jail, m, inputs) =>
      var t := s.tasks[jail];
      s.(tasks := s.tasks[jail := t.(work := ProcessLine(t.config, t.work, s.db, m, inputs))])
    case Tick(jail, inputs) =>
      var t := s.tasks[jail];
      s.(tasks := s.tasks[jail := t.(work := PurgeExpired(t.config, t.work, inputs))])
    case Receive(jail, inputs) => s.(tasks := s.tasks[jail := ReceiveTask(s.tasks[jail], s.db, inputs)])
    case MakeCall(jail) =>
      var t := s.tasks[jail];
      System(CallDb(jail, s.db, t.work.todo[0]), s.tasks[jail := CallTask(t)], s.pending)
    case Exit(jail) => s.(tasks := s.tasks - {jail})
    case Crash(where) => System(CutStore(s, where), map[], [])
  }

  ghost predicate IsRun(s: System, actions: seq<Action>)
    decreases |actions|
  {
    actions == [] || (Enabled(s, actions[0]) && IsRun(Next(s, actions[0]), actions[1..]))
  }

  ghost function Run(s: System, actions: seq<Action>): System
    requires IsRun(s, actions)
    decreases |actions|
  {
    if actions == [] then s else Run(Next(s, actions[0]), actions[1..])
  }
}
