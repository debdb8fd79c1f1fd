/**
 One jail: what each iteration of its loop does.

 An iteration begins by updating what only the jail itself writes, and leaves
 behind the calls that it still has to make on the ban manager and the ban
 store. Each of those calls is one atomic step; other tasks run in between.
 */
module JailTask {
  import opened Prelude
  import opened Numbers
  import opened Failures
  import opened BanManager
  import T = BanTables
  import B = Bantime

  datatype JailConfig = JailConfig(name: string, usedns: string, fail: FailConfig, bantime: B.BantimeConfig)

  /** Commands sent to a jail. A restored ban has its time in whole seconds. */
  datatype Command =
    | Attempt(ip: string, failures: seq<string>)
    | BanIp(ip: string)
    | UnbanIp(ip: string)
    | FlushAll
    | RestoreBan(ip: string, ipAddr: Option<string>, time: int, bantime: Option<int>)
    | Stop

  /** What an iteration takes from outside: clock readings, the jitter draw, the
      address that a name resolves to, the address that a host is the text of,
      the verdict of the ignore checks, the JSON text stored with a ban, and the
      order in which a hash map happens to be walked. */
  datatype Inputs = Inputs(
    clock: int,
    now: int,
    random: nat,
    resolved: Option<string>,
    parsed: Option<string>,
    ignored: bool,
    data: string,
    order: seq<string>)

  /** A call still to be made. */
  datatype Call =
    | DbAdd(ip: string, time: int, info: T.BanInfo)
    | BanAdd(ticket: BanTicket)
    | DbRemove(ip: string)

  /** What the jail owns, and the calls left of the current iteration. A jail is
      dead when an iteration has panicked: its task has ended. */
  datatype Work = Work(fails: FailState, bans: map<string, BanTicket>, todo: seq<Call>, dead: bool)

  // ---- Bans ----

  /** The duration of a ban, from a signed number of seconds; `None` where
      making it panics. */
  function Duration(secs: nat): Option<int> {
    Seconds(AsI64(secs))
  }

  function TicketFromFail(fail: FailTicket, m: MatchResult, duration: int, now: int): BanTicket {
    BanTicket(
      fail.host, OrElse(fail.ip, m.ip), OrElse(fail.user, m.user), OrElse(fail.altUser, m.altUser),
      OrElse(fail.mlfid, m.mlfid), now, Some(duration), fail.matches, |fail.times| % U32)
  }

  function ManualTicket(ip: string, parsed: Option<string>, duration: int, now: int): BanTicket {
    BanTicket(ip, parsed, None, None, None, now, Some(duration), [], 0)
  }

  /** A restored ban began at its stored time, or now when that is no date. */
  function RestoredTicket(ip: string, ipAddr: Option<string>, time: int, bantime: Option<int>, clock: int): BanTicket {
    BanTicket(ip, ipAddr, None, None, None, if InCalendar(time * NANOS) then time * NANOS else clock, bantime, [], 0)
  }

  /** Restoring a ban does not panic: its duration and its end exist. */
  predicate Restorable(time: int, bantime: Option<int>, clock: int) {
    && (bantime.Some? ==> Seconds(bantime.value).Some?)
    && RestoredTicket("", None, time, bantime, clock).HasExpiry()
  }

  /** `issue_ban`: the ban goes to the store, then to the manager; the failures
      are forgotten. `None` when it panics, before any of that. */
  function IssueBan(fails: FailState, fail: FailTicket, m: MatchResult, secs: nat, inputs: Inputs)
    : Option<(FailState, seq<Call>)>
  {
    match Duration(secs)
    case None => None
    case Some(duration) =>
      var ticket := TicketFromFail(fail, m, duration, inputs.now);
      Some((Failures.Remove(fails, ticket.host),
            [DbAdd(ticket.host, Timestamp(ticket.timeOfBan), T.BanInfo(ticket.bantime, inputs.data)), BanAdd(ticket)]))
  }

  /** The rest of an iteration that issues a ban. */
  function Issue(w: Work, fails: FailState, fail: FailTicket, m: MatchResult, secs: nat, inputs: Inputs): Work {
    match IssueBan(fails, fail, m, secs, inputs)
    case None => w.(fails := fails, dead := true)
    case Some((fails', todo)) => w.(fails := fails', todo := todo)
  }

  // ---- The iterations ----

  function Bantime(config: JailConfig, db: T.Tables, host: string, random: nat): nat {
    B.ComputeBantime(config.bantime, T.BanCount(db, config.name, host), random)
  }

  /** A log line, once the filter has matched it. */
  function ProcessLine(config: JailConfig, w: Work, db: T.Tables, m: MatchResult, inputs: Inputs): Work {
    if m.mlfforget then
      if m.mlfid.Some? then w.(fails := ForgetMlfid(w.fails, m.mlfid.value)) else w
    else if m.ip.None? && m.host != "" && config.usedns == "no" then w
    else
      var m := if m.ip.None? && m.host != "" && (config.usedns == "yes" || config.usedns == "warn")
               then m.(ip := inputs.resolved) else m;
      var (fails, triggered) := AddFailure(config.fail, w.fails, m, inputs.clock);
      match triggered
      case None => w.(fails := fails)
      case Some(fail) =>
        if inputs.ignored then w.(fails := Failures.Remove(fails, fail.host))
        else Issue(w, fails, fail, m, Bantime(config, db, m.host, inputs.random), inputs)
  }

  function AttemptMatch(ip: string, inputs: Inputs): MatchResult {
    MatchResult(ip, inputs.parsed, None, None, None, Some(inputs.clock), false, false, false,
                "manual attempt from " + ip)
  }

  function ManualAttempt(config: JailConfig, w: Work, db: T.Tables, ip: string, inputs: Inputs): Work {
    var m := AttemptMatch(ip, inputs);
    var (fails, triggered) := AddFailure(config.fail, w.fails, m, inputs.clock);
    match triggered
    case None => w.(fails := fails)
    case Some(fail) => Issue(w, fails, fail, m, Bantime(config, db, m.host, inputs.random), inputs)
  }

  /** A manual ban never reaches the store. */
  function ManualBan(config: JailConfig, w: Work, db: T.Tables, ip: string, inputs: Inputs): Work {
    match Duration(Bantime(config, db, ip, inputs.random))
    case None => w.(dead := true)
    case Some(duration) => w.(todo := [BanAdd(ManualTicket(ip, inputs.parsed, duration, inputs.now))])
  }

  function ManualUnban(w: Work, ip: string): Work {
    if ip in w.bans then w.(bans := w.bans - {ip}, todo := [DbRemove(ip)]) else w
  }

  function Removals(order: seq<string>): seq<Call> {
    seq(|order|, i requires 0 <= i < |order| => DbRemove(order[i]))
  }

  function FlushAllBans(w: Work, order: seq<string>): Work {
    w.(bans := map[], todo := Removals(order))
  }

  /** `clock` and `now` are read one after the other. */
  function Restore(w: Work, ip: string, ipAddr: Option<string>, time: int, bantime: Option<int>, clock: int, now: int): Work {
    if !Restorable(time, bantime, clock) then w.(dead := true)
    else
      var ticket := RestoredTicket(ip, ipAddr, time, bantime, clock);
      w.(todo := [if ticket.IsExpired(now) then DbRemove(ip) else BanAdd(ticket)])
  }

  function PurgeExpired(config: JailConfig, w: Work, inputs: Inputs): Work {
    if !AllHaveExpiry(w.bans) then w.(dead := true)
    else
      w.(fails := Purge(config.fail, w.fails, inputs.clock),
         bans := Unexpired(w.bans, inputs.now),
         todo := Removals(inputs.order))
  }

  /** Each host once. */
  ghost predicate IsOrder(order: seq<string>, hosts: set<string>) {
    (forall h :: h in order <==> h in hosts) && forall i, j :: 0 <= i < j < |order| ==> order[i] != order[j]
  }

  function Obey(config: JailConfig, w: Work, db: T.Tables, command: Command, inputs: Inputs): Work {
    match command
    case Attempt(ip, _) => ManualAttempt(config, w, db, ip, inputs)
    case BanIp(ip) => ManualBan(config, w, db, ip, inputs)
    case UnbanIp(ip) => ManualUnban(w, ip)
    case FlushAll => FlushAllBans(w, inputs.order)
    case RestoreBan(ip, ipAddr, time, bantime) => Restore(w, ip, ipAddr, time, bantime, inputs.clock, inputs.now)
    case Stop => PurgeExpired(config, w, inputs)
  }

  /** The walking order belongs to the hosts that the iteration takes out. */
  ghost predicate Ordered(w: Work, command: Command, inputs: Inputs) {
    match command
    case FlushAll => IsOrder(inputs.order, w.bans.Keys)
    case Stop => IsOrder(inputs.order, ExpiredHosts(w.bans, inputs.now))
    case _ => true
  }

  // ---- The calls ----

  ghost function CallDb(jail: string, db: T.Tables, call: Call): T.Tables {
    match call
    case DbAdd(ip, time, info) => T.AddBan(db, jail, ip, time, info)
    case DbRemove(ip) => T.RemoveBan(db, jail, ip)
    case BanAdd(_) => db
  }

  function CallBans(bans: map<string, BanTicket>, call: Call): map<string, BanTicket> {
    if call.BanAdd? then bans[call.ticket.host := call.ticket] else bans
  }

  /** The calls of an iteration that nobody interrupts. */
  ghost function DbAfter(jail: string, db: T.Tables, todo: seq<Call>): T.Tables
    decreases |todo|
  {
    if todo == [] then db else DbAfter(jail, CallDb(jail, db, todo[0]), todo[1..])
  }

  function BansAfter(bans: map<string, BanTicket>, todo: seq<Call>): map<string, BanTicket>
    decreases |todo|
  {
    if todo == [] then bans else BansAfter(CallBans(bans, todo[0]), todo[1..])
  }

  lemma {:induction false} TwoCalls(jail: string, db: T.Tables, bans: map<string, BanTicket>, first: Call, second: Call)
    ensures DbAfter(jail, db, [first, second]) == CallDb(jail, CallDb(jail, db, first), second)
    ensures BansAfter(bans, [first, second]) == CallBans(CallBans(bans, first), second)
  {
    assert [first, second][1..] == [second] && [second][1..] == [];
    assert DbAfter(jail, CallDb(jail, db, first), [second]) == CallDb(jail, CallDb(jail, db, first), second);
    assert BansAfter(CallBans(bans, first), [second]) == CallBans(CallBans(bans, first), second);
  }

  lemma {:induction false} RemovalsKeepBans(bans: map<string, BanTicket>, order: seq<string>)
    ensures BansAfter(bans, Removals(order)) == bans
    decreases |order|
  {
    if order != [] {
      assert Removals(order)[1..] == Removals(order[1..]);
      RemovalsKeepBans(bans, order[1..]);
    }
  }

  // ---- Failures between iterations ----

  function Threshold(config: FailConfig): nat {
    if config.maxretry == 0 then 1 else config.maxretry
  }

  /** Every ticket is below the threshold and filed under its own host. */
  ghost predicate FailsBelow(config: FailConfig, s: FailState) {
    forall h :: h in s.tickets ==> s.tickets[h].host == h && |s.tickets[h].times| < Threshold(config)
  }

  lemma {:induction false} RetainShrinks(times: seq<int>, cutoff: int)
    ensures |Retain(times, cutoff)| <= |times|
  {
    if times != [] {
      RetainShrinks(times[..|times| - 1], cutoff);
    }
  }

  /** An observation triggers exactly when the count reaches the threshold, and
      taking the ticket away leaves every other one below. */
  lemma {:induction false} ObservationKeepsBelow(config: FailConfig, s: FailState, m: MatchResult, clock: int)
    requires FailsBelow(config, s) && config.maxretry < U32
    ensures var (after, r) := AddFailure(config, s, m, clock);
            var host := HostFor(s.mlfids, m);
            && (r.None? ==> FailsBelow(config, after))
            && (r.Some? ==> r.value.host == host && FailsBelow(config, Failures.Remove(after, host)))
            && (r.Some? <==> !m.mlfgained && !m.nofail && |after.tickets[host].times| >= Threshold(config))
  {
    var host := HostFor(s.mlfids, m);
    var before := if host in s.tickets then s.tickets[host] else NewTicket(host, m);
    RetainShrinks(before.times, TimeOf(m, clock) - config.findtime);
  }

  /** A matched line leaves every host below the threshold, whatever it is. */
  lemma LineKeepsBelow(config: JailConfig, w: Work, db: T.Tables, m: MatchResult, inputs: Inputs)
    requires FailsBelow(config.fail, w.fails) && config.fail.maxretry < U32
    ensures var after := ProcessLine(config, w, db, m, inputs);
            !after.dead ==> FailsBelow(config.fail, after.fails)
  {
    ObservationKeepsBelow(config.fail, w.fails, m, inputs.clock);
    ObservationKeepsBelow(config.fail, w.fails, m.(ip := inputs.resolved), inputs.clock);
  }

  /** So does every command. */
  lemma CommandKeepsBelow(config: JailConfig, w: Work, db: T.Tables, command: Command, inputs: Inputs)
    requires FailsBelow(config.fail, w.fails) && config.fail.maxretry < U32
    ensures var after := Obey(config, w, db, command, inputs);
            !after.dead ==> FailsBelow(config.fail, after.fails)
  {
    if command.Attempt? {
      ObservationKeepsBelow(config.fail, w.fails, AttemptMatch(command.ip, inputs), inputs.clock);
    }
  }

  /** A matched line wants a ban exactly when it is a failure, the threshold is
      reached and the ignore checks let it through. It then bans the host that
      the failures were counted for, unless making the duration panics. */
  lemma {:induction false} BansAtThreshold(config: JailConfig, w: Work, db: T.Tables, m: MatchResult, inputs: Inputs)
    requires FailsBelow(config.fail, w.fails) && config.fail.maxretry < U32 && w.todo == [] && !w.dead
    requires !m.mlfforget && (m.ip.Some? || m.host == "" || config.usedns != "no")
    ensures var host := HostFor(w.fails.mlfids, m);
            var times := AddFailure(config.fail, w.fails, m, inputs.clock).0.tickets[host].times;
            var duration := Duration(Bantime(config, db, m.host, inputs.random));
            var after := ProcessLine(config, w, db, m, inputs);
            var wanted := !m.mlfgained && !m.nofail && !inputs.ignored && |times| >= Threshold(config.fail);
            && (after.todo != [] <==> wanted && duration.Some?)
            && (after.dead <==> wanted && duration.None?)
            && (after.todo != [] ==>
                  && |after.todo| == 2 && after.todo[1].BanAdd? && after.todo[1].ticket.host == host
                  && after.todo[1].ticket.failures == |times| % U32
                  && after.todo[1].ticket.timeOfBan == inputs.now && after.todo[1].ticket.bantime == duration)
  {
    var resolved := m.(ip := inputs.resolved);
    ObservationKeepsBelow(config.fail, w.fails, m, inputs.clock);
    ObservationKeepsBelow(config.fail, w.fails, resolved, inputs.clock);
    var host := HostFor(w.fails.mlfids, m);
    assert AddFailure(config.fail, w.fails, m, inputs.clock).0.tickets[host].times ==
           AddFailure(config.fail, w.fails, resolved, inputs.clock).0.tickets[host].times;
  }
}
