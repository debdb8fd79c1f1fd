/** A running jail: its failure manager, its ban manager and the ban store. */
module Jail {
  import opened Prelude
  import opened Numbers
  import opened Failures
  import opened JailTask
  import F = FailManager
  import M = BanManager
  import S = Store
  import T = BanTables

  class Jail {
    const config: JailConfig
    const failMgr: F.FailManager
    const banMgr: M.BanManager
    const db: S.Database

    ghost predicate Valid()
      reads this, banMgr
    {
      failMgr.config == config.fail && banMgr.Valid()
    }

    /** What the jail owns. */
    ghost function View(): Work
      reads this, failMgr, banMgr
    {
      Work(failMgr.View(), banMgr.bans, [], false)
    }

    /** The iteration `w` has run to its end, from these tables and bans. */
    ghost predicate Completed(w: Work, before: T.Tables)
      reads this, failMgr, banMgr, db
    {
      && failMgr.View() == w.fails
      && banMgr.bans == BansAfter(w.bans, w.todo)
      && db.View() == DbAfter(config.name, before, w.todo)
    }

    constructor (config: JailConfig, db: S.Database)
      ensures Valid() && View() == Work(FailState(map[], map[]), map[], [], false) && this.db == db && this.config == config
      ensures fresh(failMgr) && fresh(banMgr)
    {
      this.config := config;
      this.db := db;
      failMgr := new F.FailManager(config.fail.maxretry, config.fail.findtime, config.fail.maxmatches);
      banMgr := new M.BanManager();
    }

    method ComputeBantime(host: string, random: nat) returns (secs: nat)
      ensures secs == Bantime(config, db.View(), host, random)
    {
      var count := db.BanCount(config.name, host);
      secs := B.ComputeBantime(config.bantime, count, random);
    }

    /** Every operation below that can panic returns whether it did. */
    method IssueBan(fail: FailTicket, m: MatchResult, secs: nat, inputs: Inputs) returns (panicked: bool)
      requires Valid()
      modifies failMgr, banMgr, db
      ensures Valid()
      ensures var w := Issue(old(View()), old(failMgr.View()), fail, m, secs, inputs);
              panicked == w.dead && Completed(w, old(db.View()))
    {
      var duration := Duration(secs);
      if duration.None? {
        return true;
      }
      var ticket := TicketFromFail(fail, m, duration.value, inputs.now);
      ghost var todo := JailTask.IssueBan(failMgr.View(), fail, m, secs, inputs).value.1;
      TwoCalls(config.name, db.View(), banMgr.bans, todo[0], todo[1]);
      db.AddBan(config.name, ticket.host, M.Timestamp(ticket.timeOfBan), ticket.bantime, inputs.data);
      var _ := banMgr.AddBan(ticket);
      var _ := failMgr.Remove(ticket.host);
      panicked := false;
    }

    method ProcessLine(result: MatchResult, inputs: Inputs) returns (panicked: bool)
      requires Valid()
      modifies failMgr, banMgr, db
      ensures Valid()
      ensures var w := JailTask.ProcessLine(config, old(View()), old(db.View()), result, inputs);
              panicked == w.dead && Completed(w, old(db.View()))
    {
      panicked := false;
      var m := result;
      if m.mlfforget {
        if m.mlfid.Some? {
          failMgr.ForgetMlfid(m.mlfid.value);
        }
        return;
      }
      if m.ip.None? && m.host != "" {
        if config.usedns == "no" {
          return;
        } else if config.usedns == "yes" || config.usedns == "warn" {
          m := m.(ip := inputs.resolved);
        }
      }
      var secs := ComputeBantime(m.host, inputs.random);
      var fail := failMgr.AddFailure(m, inputs.clock);
      if fail.Some? {
        if inputs.ignored {
          var _ := failMgr.Remove(fail.value.host);
          return;
        }
        panicked := IssueBan(fail.value, m, secs, inputs);
      }
    }

    method ManualAttempt(ip: string, inputs: Inputs) returns (panicked: bool)
      requires Valid()
      modifies failMgr, banMgr, db
      ensures Valid()
      ensures var w := JailTask.ManualAttempt(config, old(View()), old(db.View()), ip, inputs);
              panicked == w.dead && Completed(w, old(db.View()))
    {
      panicked := false;
      var m := AttemptMatch(ip, inputs);
      var fail := failMgr.AddFailure(m, inputs.clock);
      if fail.Some? {
        var secs := ComputeBantime(ip, inputs.random);
        panicked := IssueBan(fail.value, m, secs, inputs);
      }
    }

    method ManualBan(ip: string, inputs: Inputs) returns (panicked: bool)
      requires Valid()
      modifies banMgr
      ensures Valid()
      ensures var w := JailTask.ManualBan(config, old(View()), old(db.View()), ip, inputs);
              panicked == w.dead && Completed(w, old(db.View()))
    {
      var secs := ComputeBantime(ip, inputs.random);
      var duration := Duration(secs);
      if duration.None? {
        return true;
      }
      var _ := banMgr.AddBan(ManualTicket(ip, inputs.parsed, duration.value, inputs.now));
      panicked := false;
    }

    method ManualUnban(ip: string)
      requires Valid()
      modifies banMgr, db
      ensures Valid() && Completed(JailTask.ManualUnban(old(View()), ip), old(db.View()))
    {
      var removed := banMgr.RemoveBan(ip);
      if removed.Some? {
        db.RemoveBan(config.name, ip);
      } else {
        assert banMgr.bans == old(banMgr.bans);
      }
    }

    method RestoreBan(ip: string, ipAddr: Option<string>, time: int, bantime: Option<int>, clock: int, now: int)
      returns (panicked: bool)
      requires Valid()
      modifies banMgr, db
      ensures Valid()
      ensures var w := JailTask.Restore(old(View()), ip, ipAddr, time, bantime, clock, now);
              panicked == w.dead && Completed(w, old(db.View()))
    {
      if bantime.Some? && M.Seconds(bantime.value).None? {
        return true;
      }
      var ticket := RestoredTicket(ip, ipAddr, time, bantime, clock);
      if !ticket.HasExpiry() {
        return true;
      }
      panicked := false;
      if ticket.IsExpired(now) {
        db.RemoveBan(config.name, ip);
        return;
      }
      var _ := banMgr.AddBan(ticket);
    }

    /** Takes the current bans of the tickets' hosts out of the store. */
    method RemoveFromDb(tickets: seq<M.BanTicket>) returns (ghost order: seq<string>)
      modifies db
      ensures order == seq(|tickets|, i requires 0 <= i < |tickets| => tickets[i].host)
      ensures db.View() == DbAfter(config.name, old(db.View()), Removals(order))
    {
      order := seq(|tickets|, i requires 0 <= i < |tickets| => tickets[i].host);
      ghost var calls := Removals(order);
      var i := 0;
      while i < |tickets|
        invariant 0 <= i <= |tickets|
        invariant DbAfter(config.name, db.View(), calls[i..]) == DbAfter(config.name, old(db.View()), calls)
      {
        db.RemoveBan(config.name, tickets[i].host);
        assert calls[i..][1..] == calls[i + 1..];
        i := i + 1;
      }
    }

    method FlushAllBans() returns (ghost order: seq<string>)
      requires Valid()
      modifies banMgr, db
      ensures Valid() && IsOrder(order, old(banMgr.bans).Keys)
      ensures Completed(JailTask.FlushAllBans(old(View()), order), old(db.View()))
    {
      var tickets := banMgr.Clear();
      order := RemoveFromDb(tickets);
      OrderOfTickets(tickets, old(banMgr.bans), old(banMgr.bans).Keys, order);
      RemovalsKeepBans(banMgr.bans, order);
    }

    method PurgeExpiredBans(inputs: Inputs) returns (panicked: bool, ghost order: seq<string>)
      requires Valid()
      modifies failMgr, banMgr, db
      ensures Valid() && (!panicked ==> IsOrder(order, M.ExpiredHosts(old(banMgr.bans), inputs.now)))
      ensures var w := PurgeExpired(config, old(View()), inputs.(order := order));
              panicked == w.dead && Completed(w, old(db.View()))
    {
      var tickets := banMgr.Expired(inputs.now);
      if tickets.None? {
        return true, [];
      }
      panicked := false;
      order := RemoveFromDb(tickets.value);
      failMgr.Purge(inputs.clock);
      OrderOfTickets(tickets.value, old(banMgr.bans), M.ExpiredHosts(old(banMgr.bans), inputs.now), order);
      RemovalsKeepBans(banMgr.bans, order);
    }
  }

  /** The hosts of enumerated tickets, each once. */
  lemma OrderOfTickets(tickets: seq<M.BanTicket>, bans: map<string, M.BanTicket>, hosts: set<string>, order: seq<string>)
    requires M.Enumerates(tickets, bans, hosts) && forall h :: h in bans ==> bans[h].host == h
    requires order == seq(|tickets|, i requires 0 <= i < |tickets| => tickets[i].host)
    ensures IsOrder(order, hosts)
  {
    forall h | h in hosts
      ensures h in order
    {
      assert bans[h] in tickets;
      var i :| 0 <= i < |tickets| && tickets[i] == bans[h];
      assert order[i] == h;
    }
    forall i | 0 <= i < |tickets|
      ensures order[i] in hosts && bans[order[i]] == tickets[i]
    {
      assert tickets[i] in tickets;
    }
  }
}
