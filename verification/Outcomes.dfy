/**
 What each command, tick and ban leaves behind once its calls are made: in the
 ban map, in both tables and in the failures.
 */
module Outcomes {
  import opened Prelude
  import opened Numbers
  import opened Failures
  import opened BanManager
  import opened JailTask
  import T = BanTables
  import B = Bantime

  ghost function StoreOf(config: JailConfig, w: Work, db: T.Tables): T.Tables {
    DbAfter(config.name, db, w.todo)
  }

  function BansOf(w: Work): map<string, BanTicket> {
    BansAfter(w.bans, w.todo)
  }

  /** Every row of other pairs is as before, in both tables. */
  ghost predicate OthersKept(db: T.Tables, after: T.Tables, jail: string, hosts: set<string>) {
    && (forall k: T.BipKey :: !(k.jail == jail && k.ip in hosts) ==>
          (k in after.bips <==> k in db.bips) && (k in db.bips ==> after.bips[k] == db.bips[k]))
    && (forall k: T.BanKey :: !(k.jail == jail && k.ip in hosts) ==>
          (k in after.bans <==> k in db.bans) && (k in db.bans ==> after.bans[k] == db.bans[k]))
  }

  /** The ban of the pair is taken back: it is no current ban, and of its rows
      exactly the newest is gone. */
  ghost predicate TakenBack(db: T.Tables, after: T.Tables, jail: string, ip: string) {
    && T.BipKey(jail, ip) !in after.bips
    && (forall time :: T.BanKey(jail, ip, time) in after.bans <==>
          T.BanKey(jail, ip, time) in db.bans
          && exists later :: later > time && T.BanKey(jail, ip, later) in db.bans)
    && (forall time :: T.BanKey(jail, ip, time) in after.bans ==>
          after.bans[T.BanKey(jail, ip, time)] == db.bans[T.BanKey(jail, ip, time)])
  }

  // ---- Removals ----

  lemma {:induction false} OneRemoval(jail: string, db: T.Tables, ip: string)
    ensures TakenBack(db, T.RemoveBan(db, jail, ip), jail, ip)
    ensures OthersKept(db, T.RemoveBan(db, jail, ip), jail, {ip})
  {
    var after := T.RemoveBan(db, jail, ip);
    forall time
      ensures T.BanKey(jail, ip, time) in after.bans <==>
              T.BanKey(jail, ip, time) in db.bans
              && exists later :: later > time && T.BanKey(jail, ip, later) in db.bans
    {
      NewestGoes(jail, db, ip, time);
    }
  }

  lemma {:induction false} NewestGoes(jail: string, db: T.Tables, ip: string, time: int)
    ensures T.BanKey(jail, ip, time) in T.RemoveBan(db, jail, ip).bans <==>
            T.BanKey(jail, ip, time) in db.bans
            && exists later :: later > time && T.BanKey(jail, ip, later) in db.bans
  {
    var times := T.Times(db.bans, jail, ip);
    T.TimesHas(db.bans, jail, ip, time);
    if times != {} {
      var newest := T.Newest(times);
      T.TimesHas(db.bans, jail, ip, newest);
      if later :| later > time && T.BanKey(jail, ip, later) in db.bans {
        T.TimesHas(db.bans, jail, ip, later);
      }
      assert time in times && time != newest ==> newest > time;
    }
  }

  ghost predicate Distinct(order: seq<string>) {
    forall i, j :: 0 <= i < j < |order| ==> order[i] != order[j]
  }

  /** A series of removals takes back each of its pairs once and nothing else. */
  lemma {:induction false} SeriesRemoves(jail: string, db: T.Tables, order: seq<string>)
    requires Distinct(order)
    ensures var after := DbAfter(jail, db, Removals(order));
            && (forall h :: h in order ==> TakenBack(db, after, jail, h))
            && OthersKept(db, after, jail, set h | h in order)
    decreases |order|
  {
    if order == [] {
      assert Removals(order) == [];
    } else {
      var first := T.RemoveBan(db, jail, order[0]);
      assert Removals(order)[1..] == Removals(order[1..]);
      assert DbAfter(jail, db, Removals(order)) == DbAfter(jail, first, Removals(order[1..]));
      OneRemoval(jail, db, order[0]);
      SeriesRemoves(jail, first, order[1..]);
      FirstAndRest(jail, db, first, DbAfter(jail, first, Removals(order[1..])), order);
    }
  }

  lemma {:induction false} FirstAndRest(jail: string, db: T.Tables, first: T.Tables, after: T.Tables, order: seq<string>)
    requires order != [] && Distinct(order) && TakenBack(db, first, jail, order[0])
    requires OthersKept(db, first, jail, {order[0]}) && OthersKept(first, after, jail, set h | h in order[1..])
    requires forall h :: h in order[1..] ==> TakenBack(first, after, jail, h)
    ensures forall h :: h in order ==> TakenBack(db, after, jail, h)
    ensures OthersKept(db, after, jail, set h | h in order)
  {
    assert order == [order[0]] + order[1..];
    assert order[0] !in order[1..];
    forall h | h in order
      ensures TakenBack(db, after, jail, h)
    {
      if h == order[0] {
        TakenAndKept(jail, db, first, after, h, set other | other in order[1..]);
      } else {
        KeptAndTaken(jail, db, first, after, h, {order[0]});
      }
    }
  }

  lemma {:induction false} TakenAndKept(jail: string, db: T.Tables, first: T.Tables, after: T.Tables, h: string, others: set<string>)
    requires TakenBack(db, first, jail, h) && OthersKept(first, after, jail, others) && h !in others
    ensures TakenBack(db, after, jail, h)
  {
  }

  lemma {:induction false} KeptAndTaken(jail: string, db: T.Tables, first: T.Tables, after: T.Tables, h: string, others: set<string>)
    requires OthersKept(db, first, jail, others) && h !in others && TakenBack(first, after, jail, h)
    ensures TakenBack(db, after, jail, h)
  {
  }

  // ---- Unbanning ----

  /** An unban takes exactly that host out of the map and its ban back from the
      store; for a host that is not banned it does nothing. */
  lemma {:induction false} UnbanUnbans(config: JailConfig, w: Work, db: T.Tables, ip: string, inputs: Inputs)
    requires w.todo == [] && !w.dead
    ensures var after := Obey(config, w, db, UnbanIp(ip), inputs);
            var store := StoreOf(config, after, db);
            && !after.dead && after.fails == w.fails
            && ip !in BansOf(after)
            && (forall h :: h != ip ==> (h in BansOf(after) <==> h in w.bans))
            && (forall h :: h in BansOf(after) ==> BansOf(after)[h] == w.bans[h])
            && (ip in w.bans ==> TakenBack(db, store, config.name, ip) && OthersKept(db, store, config.name, {ip}))
            && (ip !in w.bans ==> store == db)
  {
    if ip in w.bans {
      OneCall(config.name, db, w.bans - {ip}, DbRemove(ip));
      OneRemoval(config.name, db, ip);
    }
  }

  lemma {:induction false} OneCall(jail: string, db: T.Tables, bans: map<string, BanTicket>, call: Call)
    ensures DbAfter(jail, db, [call]) == CallDb(jail, db, call)
    ensures BansAfter(bans, [call]) == CallBans(bans, call)
  {
    assert [call][1..] == [];
  }

  /** A flush empties the map and takes back the ban of each of its hosts. */
  lemma {:induction false} FlushEmpties(config: JailConfig, w: Work, db: T.Tables, inputs: Inputs)
    requires w.todo == [] && !w.dead && Ordered(w, FlushAll, inputs)
    ensures var after := Obey(config, w, db, FlushAll, inputs);
            var store := StoreOf(config, after, db);
            && !after.dead && after.fails == w.fails
            && BansOf(after) == map[]
            && (forall h :: h in w.bans ==> TakenBack(db, store, config.name, h))
            && OthersKept(db, store, config.name, w.bans.Keys)
  {
    SeriesRemoves(config.name, db, inputs.order);
    RemovalsKeepBans(map[], inputs.order);
    assert (set h | h in inputs.order) == w.bans.Keys;
  }

  /** When the ban ends, in nanoseconds; its duration is in seconds. */
  function EndOf(t: BanTicket): Option<int> {
    if t.bantime.None? then None else Some(t.timeOfBan + 1_000_000_000 * t.bantime.value)
  }

  predicate EndsInCalendar(t: BanTicket) {
    EndOf(t).Some? ==>
      -8_334_601_228_800 * 1_000_000_000 <= EndOf(t).value < 8_210_266_876_800 * 1_000_000_000
  }

  /** Exactly the tickets with a failure since then are left, as they were. */
  ghost predicate RecentAreKept(fails: FailState, after: FailState, since: int) {
    && (forall h :: h in after.tickets <==> h in fails.tickets && exists t :: t in fails.tickets[h].times && t >= since)
    && (forall h :: h in after.tickets ==> after.tickets[h] == fails.tickets[h])
    && after.mlfids == fails.mlfids
  }

  lemma {:induction false} PurgeKeepsRecent(config: FailConfig, fails: FailState, clock: int)
    ensures RecentAreKept(fails, Purge(config, fails, clock), clock - config.findtime)
  {
    var since := clock - config.findtime;
    forall h | h in fails.tickets
      ensures SomeSince(fails.tickets[h].times, since) <==> exists t :: t in fails.tickets[h].times && t >= since
    {
      SinceIs(fails.tickets[h].times, since);
    }
  }

  lemma {:induction false} SinceIs(times: seq<int>, since: int)
    ensures SomeSince(times, since) <==> exists t :: t in times && t >= since
  {
    if t :| t in times && t >= since {
      var i :| 0 <= i < |times| && times[i] == t;
      assert times[i] >= since;
    }
    if SomeSince(times, since) {
      var i :| 0 <= i < |times| && times[i] >= since;
      assert times[i] in times;
    }
  }

  /** A tick leaves exactly the bans whose end has not come, takes back the
      others, and drops the failures that are all too old. It panics, with
      nothing changed, exactly when some end is outside the calendar. A stop
      does the same. */
  lemma {:induction false} TickDropsExpired(config: JailConfig, w: Work, db: T.Tables, inputs: Inputs)
    requires w.todo == [] && !w.dead && Ordered(w, Stop, inputs)
    ensures Obey(config, w, db, Stop, inputs) == PurgeExpired(config, w, inputs)
    ensures var after := PurgeExpired(config, w, inputs);
            var store := StoreOf(config, after, db);
            && (after.dead <==> exists h :: h in w.bans && !EndsInCalendar(w.bans[h]))
            && (after.dead ==> BansOf(after) == w.bans && store == db && after.fails == w.fails)
            && (!after.dead ==>
                 && (forall h :: h in BansOf(after) <==>
                       h in w.bans && (EndOf(w.bans[h]).Some? ==> inputs.now < EndOf(w.bans[h]).value))
                 && (forall h :: h in BansOf(after) ==> BansOf(after)[h] == w.bans[h])
                 && (forall h :: h in w.bans && h !in BansOf(after) ==> TakenBack(db, store, config.name, h))
                 && OthersKept(db, store, config.name, w.bans.Keys - BansOf(after).Keys)
                 && RecentAreKept(w.fails, after.fails, inputs.clock - config.fail.findtime))
  {
    var after := PurgeExpired(config, w, inputs);
    assert forall h :: h in w.bans ==> (EndsInCalendar(w.bans[h]) <==> w.bans[h].HasExpiry());
    if !after.dead {
      SeriesRemoves(config.name, db, inputs.order);
      PurgeKeepsRecent(config.fail, w.fails, inputs.clock);
      RemovalsKeepBans(Unexpired(w.bans, inputs.now), inputs.order);
      assert (set h | h in inputs.order) == ExpiredHosts(w.bans, inputs.now);
      assert w.bans.Keys - BansOf(after).Keys == ExpiredHosts(w.bans, inputs.now);
    }
  }

  // ---- Banning ----

  /** A length as the signed number that a duration is made from. */
  function Signed(secs: nat): int {
    if secs <= 0x7FFF_FFFF_FFFF_FFFF then secs else secs - 0x1_0000_0000_0000_0000
  }

  predicate HasDuration(secs: nat) {
    -9_223_372_036_854_775 <= Signed(secs) <= 9_223_372_036_854_775
  }

  lemma {:induction false} DurationIs(secs: nat)
    ensures Duration(secs) == if HasDuration(secs) then Some(Signed(secs)) else None
  {
  }

  /** The rows on record for a host in a jail. */
  function RowsOf(db: T.Tables, jail: string, host: string): set<T.BanKey> {
    set k | k in db.bans.Keys && k.jail == jail && k.ip == host
  }

  lemma {:induction false} RowsAreCounted(db: T.Tables, jail: string, host: string)
    ensures T.BanCount(db, jail, host) == |RowsOf(db, jail, host)|
  {
    var times := T.Times(db.bans, jail, host);
    forall time
      ensures time in times <==> T.BanKey(jail, host, time) in RowsOf(db, jail, host)
    {
      T.TimesHas(db.bans, jail, host, time);
    }
    KeysOf(jail, host, times);
    assert RowsOf(db, jail, host) == set time | time in times :: T.BanKey(jail, host, time);
  }

  lemma {:induction false} KeysOf(jail: string, host: string, times: set<int>)
    ensures |set time | time in times :: T.BanKey(jail, host, time)| == |times|
    decreases times
  {
    if times != {} {
      var t := Member(times);
      KeysOf(jail, host, times - {t});
      assert (set time | time in times :: T.BanKey(jail, host, time))
          == (set time | time in times - {t} :: T.BanKey(jail, host, time)) + {T.BanKey(jail, host, t)};
    } else {
      assert (set time | time in times :: T.BanKey(jail, host, time)) == {};
    }
  }

  /** `secs` is the length of a ban of `host` made now: by the configuration, the
      rows that the host has on record in the jail, and the draw. */
  ghost predicate IsLengthFor(config: JailConfig, db: T.Tables, host: string, random: nat, secs: nat) {
    B.IsLength(config.bantime, |RowsOf(db, config.name, host)|, random, secs)
  }

  lemma {:induction false} LengthFor(config: JailConfig, db: T.Tables, host: string, random: nat) returns (secs: nat)
    requires config.bantime.Valid()
    ensures secs == Bantime(config, db, host, random) && IsLengthFor(config, db, host, random, secs)
  {
    secs := Bantime(config, db, host, random);
    B.LengthIsRight(config.bantime, T.BanCount(db, config.name, host), random);
    RowsAreCounted(db, config.name, host);
  }

  /** A manual ban is put in the map for its length, over any other of the host,
      and goes nowhere else; it panics exactly when the length is no duration. */
  lemma {:induction false} BanBans(config: JailConfig, w: Work, db: T.Tables, ip: string, inputs: Inputs) returns (secs: nat)
    requires w.todo == [] && !w.dead && config.bantime.Valid()
    ensures IsLengthFor(config, db, ip, inputs.random, secs)
    ensures var after := Obey(config, w, db, BanIp(ip), inputs);
            && (after.dead <==> !HasDuration(secs))
            && BansOf(after) == (if after.dead then w.bans
                                 else w.bans[ip := BanTicket(ip, inputs.parsed, None, None, None, inputs.now,
                                                             Some(Signed(secs)), [], 0)])
            && StoreOf(config, after, db) == db && after.fails == w.fails
  {
    secs := LengthFor(config, db, ip, inputs.random);
    DurationIs(secs);
    if HasDuration(secs) {
      OneCall(config.name, db, w.bans, BanAdd(ManualTicket(ip, inputs.parsed, Signed(secs), inputs.now)));
    }
  }

  /** Whole seconds since the epoch, rounded down. */
  predicate IsSecondOf(time: int, nanos: int) {
    time * 1_000_000_000 <= nanos < (time + 1) * 1_000_000_000
  }

  /** The ban is the host's current one, with this row, in the store; no other
      row has changed, of this or of other pairs. */
  ghost predicate Stored(db: T.Tables, after: T.Tables, jail: string, host: string, time: int, info: T.BanInfo) {
    && T.BipKey(jail, host) in after.bips && after.bips[T.BipKey(jail, host)] == time
    && T.BanKey(jail, host, time) in after.bans && after.bans[T.BanKey(jail, host, time)] == info
    && OthersKept(db, after, jail, {host})
    && (forall t :: t != time ==>
          (T.BanKey(jail, host, t) in after.bans <==> T.BanKey(jail, host, t) in db.bans)
          && (T.BanKey(jail, host, t) in db.bans ==>
                after.bans[T.BanKey(jail, host, t)] == db.bans[T.BanKey(jail, host, t)]))
  }

  /** The ticket of a ban says what the failures and the last match say. */
  predicate TicketSays(t: BanTicket, fail: FailTicket, m: MatchResult, now: int, secs: nat) {
    && t.host == fail.host && t.timeOfBan == now && t.bantime == Some(Signed(secs))
    && t.failures == |fail.times| % 0x1_0000_0000 && t.matches == fail.matches
    && t.ip == (if fail.ip.Some? then fail.ip else m.ip)
    && t.user == (if fail.user.Some? then fail.user else m.user)
    && t.altUser == (if fail.altUser.Some? then fail.altUser else m.altUser)
    && t.mlfid == (if fail.mlfid.Some? then fail.mlfid else m.mlfid)
  }

  /** An iteration that issues a ban: its host is banned in map and store, and
      its failures are gone; or it panics over the length, with nothing done. */
  ghost predicate Issued(config: JailConfig, w: Work, db: T.Tables, fails: FailState, fail: FailTicket, m: MatchResult,
                         secs: nat, inputs: Inputs, after: Work) {
    var host, store := fail.host, StoreOf(config, after, db);
    && (after.dead <==> !HasDuration(secs))
    && (after.dead ==> BansOf(after) == w.bans && store == db && after.fails == fails)
    && (!after.dead ==>
         && host in BansOf(after) && TicketSays(BansOf(after)[host], fail, m, inputs.now, secs)
         && (forall h :: h != host ==> (h in BansOf(after) <==> h in w.bans))
         && (forall h :: h != host && h in w.bans ==> BansOf(after)[h] == w.bans[h])
         && (exists time :: IsSecondOf(time, inputs.now)
                            && Stored(db, store, config.name, host, time, T.BanInfo(Some(Signed(secs)), inputs.data)))
         && after.fails == FailState(fails.tickets - {host}, fails.mlfids))
  }

  lemma {:induction false} IssueIssues(config: JailConfig, w: Work, db: T.Tables, fails: FailState, fail: FailTicket,
                                       m: MatchResult, secs: nat, inputs: Inputs)
    requires w.todo == [] && !w.dead
    ensures Issued(config, w, db, fails, fail, m, secs, inputs, Issue(w, fails, fail, m, secs, inputs))
  {
    DurationIs(secs);
    if HasDuration(secs) {
      var ticket := TicketFromFail(fail, m, Signed(secs), inputs.now);
      var time, info := Timestamp(inputs.now), T.BanInfo(Some(Signed(secs)), inputs.data);
      TwoCalls(config.name, db, w.bans, DbAdd(fail.host, time, info), BanAdd(ticket));
      assert IsSecondOf(time, inputs.now);
      assert Stored(db, T.AddBan(db, config.name, fail.host, time, info), config.name, fail.host, time, info);
    }
  }

  /** An attempt counts one failure of its address now; the address is banned
      exactly when its failures then reach the threshold, ignored or not. */
  lemma {:induction false} AttemptBans(config: JailConfig, w: Work, db: T.Tables, ip: string, failures: seq<string>, inputs: Inputs)
    returns (secs: nat)
    requires w.todo == [] && !w.dead && config.bantime.Valid()
    requires FailsBelow(config.fail, w.fails) && config.fail.maxretry < U32
    ensures IsLengthFor(config, db, ip, inputs.random, secs)
    ensures var m := MatchResult(ip, inputs.parsed, None, None, None, Some(inputs.clock), false, false, false,
                                 "manual attempt from " + ip);
            var counted := AddFailure(config.fail, w.fails, m, inputs.clock).0;
            var after := Obey(config, w, db, Attempt(ip, failures), inputs);
            && ip in counted.tickets
            && (if |counted.tickets[ip].times| >= (if config.fail.maxretry == 0 then 1 else config.fail.maxretry)
                then Issued(config, w, db, counted, counted.tickets[ip], m, secs, inputs, after)
                else !after.dead && BansOf(after) == w.bans && StoreOf(config, after, db) == db && after.fails == counted)
  {
    var m := AttemptMatch(ip, inputs);
    var (counted, r) := AddFailure(config.fail, w.fails, m, inputs.clock);
    secs := LengthFor(config, db, ip, inputs.random);
    ObservationKeepsBelow(config.fail, w.fails, m, inputs.clock);
    if r.Some? {
      IssueIssues(config, w, db, counted, r.value, m, secs, inputs);
    }
  }

  /** A line that is passed over changes at most one binding of an MLFID. */
  lemma {:induction false} LineForgets(config: JailConfig, w: Work, db: T.Tables, m: MatchResult, inputs: Inputs)
    requires w.todo == [] && !w.dead
    requires m.mlfforget || (m.ip.None? && m.host != "" && config.usedns == "no")
    ensures var after := ProcessLine(config, w, db, m, inputs);
            && !after.dead && BansOf(after) == w.bans && StoreOf(config, after, db) == db
            && after.fails.tickets == w.fails.tickets
            && after.fails.mlfids == (if m.mlfforget && m.mlfid.Some? then w.fails.mlfids - {m.mlfid.value} else w.fails.mlfids)
  {
  }

  lemma {:induction false} LineCounts(config: JailConfig, w: Work, db: T.Tables, m: MatchResult, seen: MatchResult, inputs: Inputs,
                                      counted: FailState, r: Option<FailTicket>)
    requires !m.mlfforget && !(m.ip.None? && m.host != "" && config.usedns == "no")
    requires seen == if m.ip.None? && m.host != "" && (config.usedns == "yes" || config.usedns == "warn")
                     then m.(ip := inputs.resolved) else m
    requires (counted, r) == AddFailure(config.fail, w.fails, seen, inputs.clock)
    ensures ProcessLine(config, w, db, m, inputs) ==
            if r.None? then w.(fails := counted)
            else if inputs.ignored then w.(fails := FailState(counted.tickets - {r.value.host}, counted.mlfids))
            else Issue(w, counted, r.value, seen, Bantime(config, db, m.host, inputs.random), inputs)
  {
  }

  /** Any other line is counted, with the address that its name resolves to if
      names are resolved. Its host is then banned, or forgiven when ignored, or
      only counted. */
  lemma {:induction false} LineBans(config: JailConfig, w: Work, db: T.Tables, m: MatchResult, inputs: Inputs) returns (secs: nat)
    requires w.todo == [] && !w.dead && config.bantime.Valid()
    requires FailsBelow(config.fail, w.fails) && config.fail.maxretry < U32
    requires !m.mlfforget && !(m.ip.None? && m.host != "" && config.usedns == "no")
    ensures IsLengthFor(config, db, m.host, inputs.random, secs)
    ensures var seen := if m.ip.None? && m.host != "" && (config.usedns == "yes" || config.usedns == "warn")
                        then m.(ip := inputs.resolved) else m;
            var host := HostFor(w.fails.mlfids, m);
            var counted := AddFailure(config.fail, w.fails, seen, inputs.clock).0;
            var after := ProcessLine(config, w, db, m, inputs);
            && host in counted.tickets
            && (var full := !m.mlfgained && !m.nofail
                            && |counted.tickets[host].times| >= (if config.fail.maxretry == 0 then 1 else config.fail.maxretry);
                if full && !inputs.ignored
                then Issued(config, w, db, counted, counted.tickets[host], seen, secs, inputs, after)
                else
                  && !after.dead && BansOf(after) == w.bans && StoreOf(config, after, db) == db
                  && after.fails == (if full then FailState(counted.tickets - {host}, counted.mlfids) else counted))
  {
    var seen := if m.ip.None? && m.host != "" && (config.usedns == "yes" || config.usedns == "warn")
                then m.(ip := inputs.resolved) else m;
    var (counted, r) := AddFailure(config.fail, w.fails, seen, inputs.clock);
    secs := LengthFor(config, db, m.host, inputs.random);
    ObservationKeepsBelow(config.fail, w.fails, seen, inputs.clock);
    LineCounts(config, w, db, m, seen, inputs, counted, r);
    if r.Some? {
      IssueIssues(config, w, db, counted, r.value, seen, secs, inputs);
    }
  }

  // ---- Restoring ----

  /** A restored ban is in the map again, as it was stored, or taken back when
      its end has come; it panics exactly when its duration or its end does not
      exist. A stored time that is no date counts as now. */
  lemma {:induction false} RestoreRestores(config: JailConfig, w: Work, db: T.Tables, ip: string, ipAddr: Option<string>,
                                           time: int, bantime: Option<int>, inputs: Inputs)
    requires w.todo == [] && !w.dead
    ensures var isDate := -8_334_601_228_800 <= time < 8_210_266_876_800;
            var ticket := BanTicket(ip, ipAddr, None, None, None, if isDate then time * 1_000_000_000 else inputs.clock,
                                    bantime, [], 0);
            var after := Obey(config, w, db, RestoreBan(ip, ipAddr, time, bantime), inputs);
            var store := StoreOf(config, after, db);
            && after.fails == w.fails
            && (!after.dead <==>
                  && (bantime.Some? ==> -9_223_372_036_854_775 <= bantime.value <= 9_223_372_036_854_775)
                  && EndsInCalendar(ticket))
            && (if !after.dead && EndOf(ticket).Some? && inputs.now >= EndOf(ticket).value
                then BansOf(after) == w.bans && TakenBack(db, store, config.name, ip) && OthersKept(db, store, config.name, {ip})
                else BansOf(after) == (if after.dead then w.bans else w.bans[ip := ticket]) && store == db)
  {
    var after := Obey(config, w, db, RestoreBan(ip, ipAddr, time, bantime), inputs);
    if !after.dead {
      OneCall(config.name, db, w.bans, after.todo[0]);
      OneRemoval(config.name, db, ip);
    }
  }
}
