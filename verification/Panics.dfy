/** Jails panic over nothing but a ban whose length or end does not exist. */
module Panics {
  import opened Prelude
  import opened Numbers
  import opened Failures
  import opened BanManager
  import opened JailTask
  import opened Lifecycle
  import opened BanFate
  import T = BanTables
  import R = Restart

  /** A stored ban that restoring never panics over. */
  predicate SaneRow(time: int, bantime: Option<int>) {
    && InCalendar(time * NANOS)
    && (bantime.Some? ==> Seconds(bantime.value).Some? && InCalendar(time * NANOS + bantime.value * NANOS))
  }

  ghost predicate SaneTables(db: T.Tables) {
    forall k :: k in db.bans ==> SaneRow(k.time, db.bans[k].bantime)
  }

  predicate SaneCall(call: Call) {
    match call
    case DbAdd(_, time, info) => SaneRow(time, info.bantime)
    case BanAdd(ticket) => ticket.HasExpiry()
    case DbRemove(_) => true
  }

  predicate SaneCommand(command: Command) {
    command.RestoreBan? ==> SaneRow(command.time, command.bantime)
  }

  ghost predicate SaneWork(w: Work) {
    && !w.dead
    && AllHaveExpiry(w.bans)
    && (forall i :: 0 <= i < |w.todo| ==> SaneCall(w.todo[i]))
  }

  ghost predicate SaneTask(t: Task) {
    SaneWork(t.work) && forall i :: 0 <= i < |t.queue| ==> SaneCommand(t.queue[i])
  }

  ghost predicate Sane(s: System) {
    && SaneTables(s.db)
    && (forall j :: j in s.tasks ==> SaneTask(s.tasks[j]))
    && (forall i :: 0 <= i < |s.pending| ==> SaneRow(s.pending[i].time, s.pending[i].bantime))
  }

  /** A ban of this length, made now, is no reason to panic. */
  predicate Harmless(secs: nat, now: int) {
    secs <= U64_MAX && InCalendar(now) && !FateOf(secs, now).PanicsWhenMade? && !FateOf(secs, now).PanicsWhenAsked?
  }

  /** Whatever ban the action may make is harmless. */
  ghost predicate Calm(s: System, a: Action)
    requires Enabled(s, a)
  {
    match a
    case Line(jail, m, inputs) => Harmless(Bantime(s.tasks[jail].config, s.db, m.host, inputs.random), inputs.now)
    case Receive(jail, inputs) =>
      var t := s.tasks[jail];
      t.queue[0].Attempt? || t.queue[0].BanIp? ==>
        Harmless(Bantime(t.config, s.db, t.queue[0].ip, inputs.random), inputs.now)
    case _ => true
  }

  ghost predicate CalmRun(s: System, actions: seq<Action>)
    requires IsRun(s, actions)
    decreases |actions|
  {
    actions == [] || (Calm(s, actions[0]) && CalmRun(Next(s, actions[0]), actions[1..]))
  }

  lemma {:induction false} SaneIsRestorable(time: int, bantime: Option<int>, clock: int)
    requires SaneRow(time, bantime)
    ensures Restorable(time, bantime, clock)
  {
  }

  lemma {:induction false} HarmlessTicket(ticket: BanTicket, secs: nat, now: int)
    requires Harmless(secs, now) && Duration(secs).Some? && ticket.timeOfBan == now && ticket.bantime == Duration(secs)
    ensures ticket.HasExpiry() && SaneRow(Timestamp(now), ticket.bantime)
  {
    FateIsRight(secs, now);
    assert MadeAt(ticket, secs, now);
    R.WholeSecondsInCalendar(now);
    R.EarlierInCalendar(now, ticket.bantime.value);
  }

  lemma {:induction false} IssueIsSane(w: Work, fails: FailState, fail: FailTicket, m: MatchResult, secs: nat, inputs: Inputs)
    requires SaneWork(w) && w.todo == [] && Harmless(secs, inputs.now)
    ensures SaneWork(Issue(w, fails, fail, m, secs, inputs))
  {
    FateIsRight(secs, inputs.now);
    HarmlessTicket(TicketFromFail(fail, m, Duration(secs).value, inputs.now), secs, inputs.now);
  }

  lemma {:induction false} LineIsSane(config: JailConfig, w: Work, db: T.Tables, m: MatchResult, inputs: Inputs)
    requires SaneWork(w) && w.todo == [] && Harmless(Bantime(config, db, m.host, inputs.random), inputs.now)
    ensures SaneWork(ProcessLine(config, w, db, m, inputs))
  {
    var secs := Bantime(config, db, m.host, inputs.random);
    forall fails, fail, observed
      ensures SaneWork(Issue(w, fails, fail, observed, secs, inputs))
    {
      IssueIsSane(w, fails, fail, observed, secs, inputs);
    }
  }

  lemma {:induction false} CommandIsSane(config: JailConfig, w: Work, db: T.Tables, command: Command, inputs: Inputs)
    requires SaneWork(w) && w.todo == [] && SaneCommand(command)
    requires command.Attempt? || command.BanIp? ==>
               Harmless(Bantime(config, db, command.ip, inputs.random), inputs.now)
    ensures SaneWork(Obey(config, w, db, command, inputs))
  {
    match command {
      case Attempt(ip, _) =>
        var secs := Bantime(config, db, ip, inputs.random);
        forall fails, fail
          ensures SaneWork(Issue(w, fails, fail, AttemptMatch(ip, inputs), secs, inputs))
        {
          IssueIsSane(w, fails, fail, AttemptMatch(ip, inputs), secs, inputs);
        }
      case BanIp(ip) =>
        var secs := Bantime(config, db, ip, inputs.random);
        FateIsRight(secs, inputs.now);
        HarmlessTicket(ManualTicket(ip, inputs.parsed, Duration(secs).value, inputs.now), secs, inputs.now);
      case RestoreBan(ip, ipAddr, time, bantime) =>
        SaneIsRestorable(time, bantime, inputs.clock);
      case _ =>
    }
  }

  lemma {:induction false} CallIsSane(jail: string, db: T.Tables, w: Work)
    requires SaneTables(db) && SaneWork(w) && w.todo != []
    ensures SaneTables(CallDb(jail, db, w.todo[0]))
    ensures SaneWork(w.(bans := CallBans(w.bans, w.todo[0]), todo := w.todo[1..]))
  {
    assert SaneCall(w.todo[0]);
  }

  lemma {:induction false} CutIsSane(s: System, where: Where)
    requires Sane(s) && Enabled(s, Crash(where))
    ensures SaneTables(CutStore(s, where))
  {
    if where.InCall? {
      assert SaneCall(s.tasks[where.jail].work.todo[0]);
    }
  }

  lemma {:induction false} ReadIsSane(s: System, rows: seq<T.DbBan>)
    requires Sane(s) && Enabled(s, ReadStore(rows))
    ensures Sane(Next(s, ReadStore(rows)))
  {
    R.RowsArePending(s.db, rows);
  }

  lemma {:induction false} NextIsSane(s: System, a: Action)
    requires Sane(s) && Enabled(s, a) && Calm(s, a)
    ensures Sane(Next(s, a))
  {
    match a {
      case Line(jail, m, inputs) =>
        LineIsSane(s.tasks[jail].config, s.tasks[jail].work, s.db, m, inputs);
      case Tick(jail, inputs) =>
        CommandIsSane(s.tasks[jail].config, s.tasks[jail].work, s.db, Stop, inputs);
      case Receive(jail, inputs) =>
        assert SaneCommand(s.tasks[jail].queue[0]);
        CommandIsSane(s.tasks[jail].config, s.tasks[jail].work, s.db, s.tasks[jail].queue[0], inputs);
      case MakeCall(jail) =>
        CallIsSane(jail, s.db, s.tasks[jail].work);
      case Crash(where) =>
        CutIsSane(s, where);
      case ReadStore(rows) =>
        ReadIsSane(s, rows);
      case _ =>
    }
  }

  /** From stored bans that can be restored, no jail ever panics in a run whose
      bans are all harmless when they are made: every length up to the longest
      duration and the calendar's end is, and so is the permanent one. */
  lemma {:induction false} CalmRunsDoNotPanic(db: T.Tables, actions: seq<Action>, jail: string)
    requires SaneTables(db) && IsRun(System(db, map[], []), actions) && CalmRun(System(db, map[], []), actions)
    requires jail in Run(System(db, map[], []), actions).tasks
    ensures !Run(System(db, map[], []), actions).tasks[jail].work.dead
  {
    RunIsSane(System(db, map[], []), actions);
  }

  lemma {:induction false} RunIsSane(s: System, actions: seq<Action>)
    requires Sane(s) && IsRun(s, actions) && CalmRun(s, actions)
    ensures Sane(Run(s, actions))
    decreases |actions|
  {
    if actions != [] {
      NextIsSane(s, actions[0]);
      RunIsSane(Next(s, actions[0]), actions[1..]);
    }
  }
}
