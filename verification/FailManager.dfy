/** The failure manager: it updates the tickets and the MLFID map in place. */
module FailManager {
  import opened Prelude
  import opened Numbers
  import opened Failures

  class FailManager {
    var tickets: map<string, FailTicket>
    var mlfidMap: map<string, string>
    const config: FailConfig

    function View(): FailState
      reads this
    {
      FailState(tickets, mlfidMap)
    }

    constructor (maxretry: nat, findtime: int, maxmatches: nat)
      ensures View() == FailState(map[], map[]) && config == FailConfig(maxretry, findtime, maxmatches)
    {
      tickets, mlfidMap := map[], map[];
      config := FailConfig(maxretry, findtime, maxmatches);
    }

    /** Brings a ticket up to date with one more observation of its host. */
    method Update(before: FailTicket, m: MatchResult, now: int) returns (ticket: FailTicket)
      ensures ticket == Observe(config, before, m, now)
    {
      ticket := before.(times := Retain(before.times, now - config.findtime));
      if ticket.ip.None? {
        ticket := ticket.(ip := m.ip);
      }
      if ticket.user.None? {
        ticket := ticket.(user := m.user);
      }
      if ticket.altUser.None? {
        ticket := ticket.(altUser := m.altUser);
      }
      if m.mlfgained {
        return ticket.(times := []);
      }
      if !m.nofail {
        ticket := ticket.(times := ticket.times + [now]);
      }
      if |ticket.matches| < config.maxmatches {
        ticket := ticket.(matches := ticket.matches + [m.line]);
      }
      ticket := ticket.(nofail := m.nofail);
    }

    method AddFailure(m: MatchResult, clock: int) returns (r: Option<FailTicket>)
      modifies this
      ensures View() == Failures.AddFailure(config, old(View()), m, clock).0
      ensures r == Failures.AddFailure(config, old(View()), m, clock).1
    {
      var host := m.host;
      if m.mlfid.Some? {
        if m.mlfid.value !in mlfidMap {
          mlfidMap := mlfidMap[m.mlfid.value := m.host];
        }
        host := mlfidMap[m.mlfid.value];
      }
      if m.mlfid.Some? {
        mlfidMap := mlfidMap[m.mlfid.value := host];
      }
      var ticket := Update(if host in tickets then tickets[host] else NewTicket(host, m), m, TimeOf(m, clock));
      tickets := tickets[host := ticket];
      if m.mlfgained || m.nofail {
        return None;
      }
      r := if |ticket.times| % U32 >= config.maxretry then Some(ticket) else None;
    }

    method ForgetMlfid(mlfid: string)
      modifies this`mlfidMap
      ensures View() == Failures.ForgetMlfid(old(View()), mlfid)
    {
      mlfidMap := mlfidMap - {mlfid};
    }

    method Remove(host: string) returns (removed: Option<FailTicket>)
      modifies this`tickets
      ensures View() == Failures.Remove(old(View()), host)
      ensures removed == Get(old(tickets), host)
    {
      removed := Get(tickets, host);
      tickets := tickets - {host};
    }

    method Purge(clock: int)
      modifies this`tickets
      ensures View() == Failures.Purge(config, old(View()), clock)
    {
      var cutoff := clock - config.findtime;
      tickets := map h | h in tickets && SomeSince(tickets[h].times, cutoff) :: tickets[h];
    }
  }
}
