/** The ban store: it executes the statements of `BanTables` on its two tables. */
module Store {
  import opened Prelude
  import T = BanTables

  class Database {
    var bans: map<T.BanKey, T.BanInfo>
    var bips: map<T.BipKey, int>

    function View(): T.Tables
      reads this
    {
      T.Tables(bans, bips)
    }

    constructor ()
      ensures View() == T.Tables(map[], map[])
    {
      bans, bips := map[], map[];
    }

    method AddBan(jail: string, ip: string, time: int, bantime: Option<int>, data: string)
      modifies this
      ensures View() == T.AddBan(old(View()), jail, ip, time, T.BanInfo(bantime, data))
    {
      bans := bans[T.BanKey(jail, ip, time) := T.BanInfo(bantime, data)];
      bips := bips[T.BipKey(jail, ip) := time];
    }

    method RemoveBan(jail: string, ip: string)
      modifies this
      ensures View() == T.RemoveBan(old(View()), jail, ip)
    {
      var times := T.Times(bans, jail, ip);
      if times != {} {
        ghost var n := T.Newest(times);
        assert n in times && forall t :: t in times ==> t <= n;
        var newest :| newest in times && forall t :: t in times ==> t <= newest;
        bans := bans - {T.BanKey(jail, ip, newest)};
      }
      bips := bips - {T.BipKey(jail, ip)};
    }

    method RemoveBanAllJails(ip: string)
      modifies this
      ensures View() == T.RemoveBanAllJails(old(View()), ip)
    {
      bans := map k | k in bans && k.ip != ip :: bans[k];
      bips := map k | k in bips && k.ip != ip :: bips[k];
    }

    method RemoveAllBans()
      modifies this
      ensures View() == T.Tables(map[], map[])
    {
      bans, bips := map[], map[];
    }

    method BanCount(jail: string, ip: string) returns (n: int)
      ensures n == T.BanCount(View(), jail, ip)
    {
      n := |T.Times(bans, jail, ip)|;
    }

    method Purge(now: int, maxAge: int)
      modifies this
      ensures View() == T.Purge(old(View()), now, maxAge)
    {
      ghost var before := View();
      bips := map k | k in bips && !T.Stale(View(), k, now) :: bips[k];
      bans := map k | k in bans && !(k.time < now - maxAge && !T.IsCurrent(bips, k)) :: bans[k];
    }
  }
}
