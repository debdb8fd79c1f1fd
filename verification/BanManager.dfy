/**
 The bans in force in one jail. Times are in nanoseconds since the epoch.

 The date library panics on a duration or a date outside its range, and a panic
 ends the task it happens in. Here such a computation has no result.
 */
module BanManager {
  import opened Prelude
  import opened Numbers

  const NANOS := 1_000_000_000

  /** The longest duration, in whole seconds: it is kept in milliseconds. */
  const MAX_SECONDS: nat := I64_MAX / 1000

  /** The first and the last moment of the calendar, which ends with the year 262142. */
  const CALENDAR_START: int := -8_334_601_228_800 * NANOS
  const CALENDAR_END: int := 8_210_266_876_800 * NANOS - 1

  /** `Duration::seconds`; `None` where it panics. */
  function Seconds(s: int): Option<int> {
    if 0 <= s + MAX_SECONDS && s <= MAX_SECONDS then Some(s) else None
  }

  predicate InCalendar(time: int) {
    CALENDAR_START <= time <= CALENDAR_END
  }

  datatype BanTicket = BanTicket(
    host: string,
    ip: Option<string>,
    user: Option<string>,
    altUser: Option<string>,
    mlfid: Option<string>,
    timeOfBan: int,
    bantime: Option<int>,
    matches: seq<string>,
    failures: nat)
  {
    /** When the ban ends; a permanent ban never does. The duration is in seconds. */
    function Expires(): Option<int> {
      if bantime.Some? then Some(timeOfBan + bantime.value * NANOS) else None
    }

    /** Asking whether the ban is over does not panic. */
    predicate HasExpiry() {
      Expires().None? || InCalendar(Expires().value)
    }

    predicate IsExpired(now: int) {
      Expires().Some? && now >= Expires().value
    }
  }

  /** `DateTime::timestamp`: whole seconds, rounded down. */
  function Timestamp(time: int): int {
    time / NANOS
  }

  function Unexpired(bans: map<string, BanTicket>, now: int): map<string, BanTicket> {
    map h | h in bans && !bans[h].IsExpired(now) :: bans[h]
  }

  predicate AllHaveExpiry(bans: map<string, BanTicket>) {
    forall h :: h in bans ==> bans[h].HasExpiry()
  }

  function ExpiredHosts(bans: map<string, BanTicket>, now: int): set<string> {
    set h | h in bans && bans[h].IsExpired(now)
  }

  /** Each of the hosts once, in some order, with its ticket. */
  ghost predicate Enumerates(tickets: seq<BanTicket>, bans: map<string, BanTicket>, hosts: set<string>) {
    && hosts <= bans.Keys
    && (forall i, j :: 0 <= i < j < |tickets| ==> tickets[i] != tickets[j])
    && (forall t :: t in tickets <==> exists h :: h in hosts && bans[h] == t)
  }

  class BanManager {
    var bans: map<string, BanTicket>
    var totalBanned: nat

    /** Every ticket is filed under its own host. */
    ghost predicate Valid()
      reads this
    {
      forall h :: h in bans ==> bans[h].host == h
    }

    constructor ()
      ensures Valid() && bans == map[] && totalBanned == 0
    {
      bans, totalBanned := map[], 0;
    }

    /** True when the host was not banned already. */
    method AddBan(ticket: BanTicket) returns (isNew: bool)
      requires Valid()
      modifies this
      ensures Valid() && bans == old(bans)[ticket.host := ticket]
      ensures isNew <==> ticket.host !in old(bans)
      ensures totalBanned == old(totalBanned) + if isNew then 1 else 0
    {
      isNew := ticket.host !in bans;
      bans := bans[ticket.host := ticket];
      if isNew {
        totalBanned := totalBanned + 1;
      }
    }

    method RemoveBan(host: string) returns (removed: Option<BanTicket>)
      requires Valid()
      modifies this`bans
      ensures Valid() && bans == old(bans) - {host}
      ensures removed == Get(old(bans), host)
    {
      removed := Get(bans, host);
      bans := bans - {host};
    }

    /** Takes the given hosts out, one at a time. */
    method Take(hosts: set<string>) returns (tickets: seq<BanTicket>)
      requires Valid() && hosts <= bans.Keys
      modifies this`bans
      ensures Valid() && bans == old(bans) - hosts
      ensures Enumerates(tickets, old(bans), hosts)
    {
      ghost var before := bans;
      var left := hosts;
      tickets := [];
      while left != {}
        invariant left <= hosts && bans == before - (hosts - left)
        invariant Enumerates(tickets, before, hosts - left)
        decreases left
      {
        var host :| host in left;
        ghost var taken := hosts - left;
        tickets := tickets + [bans[host]];
        bans := bans - {host};
        left := left - {host};
        assert hosts - left == taken + {host};
        forall i | 0 <= i < |tickets| - 1
          ensures tickets[i] != tickets[|tickets| - 1]
        {
          assert tickets[i] in tickets[..|tickets| - 1];
        }
      }
      assert hosts - left == hosts;
    }

    /** The bans that are over at `now` leave the manager. It panics, with
        nothing changed, when the end of some ban is outside the calendar. */
    method Expired(now: int) returns (r: Option<seq<BanTicket>>)
      requires Valid()
      modifies this`bans
      ensures Valid()
      ensures r.Some? <==> AllHaveExpiry(old(bans))
      ensures bans == if r.Some? then Unexpired(old(bans), now) else old(bans)
      ensures r.Some? ==> Enumerates(r.value, old(bans), ExpiredHosts(old(bans), now))
    {
      if !AllHaveExpiry(bans) {
        return None;
      }
      var tickets := Take(ExpiredHosts(bans, now));
      r := Some(tickets);
    }

    method Clear() returns (tickets: seq<BanTicket>)
      requires Valid()
      modifies this`bans
      ensures Valid() && bans == map[]
      ensures Enumerates(tickets, old(bans), old(bans).Keys)
    {
      tickets := Take(bans.Keys);
    }
  }
}
