/**
 Ban persistence: the `bans` history, keyed by jail, address and ban time, and
 `bips`, the current ban of each jail and address.

 `Tables` is their content as a value and the functions below are the
 statements that change it; module `Store` has the store that executes them.
 */
module BanTables {
  import opened Prelude

  datatype BanKey = BanKey(jail: string, ip: string, time: int)

  datatype BipKey = BipKey(jail: string, ip: string)

  /** The other columns of a `bans` row. No bantime means permanent. */
  datatype BanInfo = BanInfo(bantime: Option<int>, data: string)

  /** A row that `list_bans` returns. */
  datatype DbBan = DbBan(jail: string, ip: string, time: int, bantime: Option<int>, data: string)

  datatype Tables = Tables(bans: map<BanKey, BanInfo>, bips: map<BipKey, int>)

  /** The ban times on record for an address in a jail. */
  function Times(bans: map<BanKey, BanInfo>, jail: string, ip: string): set<int> {
    set k | k in bans.Keys && k.jail == jail && k.ip == ip :: k.time
  }

  lemma TimesHas(bans: map<BanKey, BanInfo>, jail: string, ip: string, time: int)
    ensures time in Times(bans, jail, ip) <==> BanKey(jail, ip, time) in bans
  {
    if BanKey(jail, ip, time) in bans {
      assert BanKey(jail, ip, time).time in Times(bans, jail, ip);
    }
  }

  ghost predicate IsNewest(time: int, times: set<int>) {
    time in times && forall t :: t in times ==> t <= time
  }

  lemma {:induction false} NewestExists(times: set<int>)
    requires times != {}
    ensures exists newest :: IsNewest(newest, times)
  {
    var t := Member(times);
    if times == {t} {
      assert IsNewest(t, times);
    } else {
      NewestExists(times - {t});
      var other :| IsNewest(other, times - {t});
      assert forall x :: x in times ==> x == t || x in times - {t};
      assert IsNewest(Max(t, other), times);
    }
  }

  ghost function Newest(times: set<int>): (newest: int)
    requires times != {}
    ensures IsNewest(newest, times)
  {
    NewestExists(times);
    var newest :| IsNewest(newest, times);
    newest
  }

  function BanCount(t: Tables, jail: string, ip: string): nat {
    |Times(t.bans, jail, ip)|
  }

  // ---- The statements ----

  /*
   Each call on the store is two statements. A statement is atomic and no other
   task comes between the two, but a crash may.
   */

  function InsertRow(t: Tables, jail: string, ip: string, time: int, info: BanInfo): Tables {
    t.(bans := t.bans[BanKey(jail, ip, time) := info])
  }

  function SetCurrent(t: Tables, jail: string, ip: string, time: int): Tables {
    t.(bips := t.bips[BipKey(jail, ip) := time])
  }

  function AddBan(t: Tables, jail: string, ip: string, time: int, info: BanInfo): Tables {
    SetCurrent(InsertRow(t, jail, ip, time, info), jail, ip, time)
  }

  ghost function DeleteNewest(t: Tables, jail: string, ip: string): Tables {
    var times := Times(t.bans, jail, ip);
    t.(bans := if times == {} then t.bans else t.bans - {BanKey(jail, ip, Newest(times))})
  }

  function DeleteCurrent(t: Tables, jail: string, ip: string): Tables {
    t.(bips := t.bips - {BipKey(jail, ip)})
  }

  /** Deletes the newest row of the history and the current ban. */
  ghost function RemoveBan(t: Tables, jail: string, ip: string): Tables {
    DeleteCurrent(DeleteNewest(t, jail, ip), jail, ip)
  }

  function DeleteRowsOf(t: Tables, ip: string): Tables {
    t.(bans := map k | k in t.bans && k.ip != ip :: t.bans[k])
  }

  function DeleteCurrentOf(t: Tables, ip: string): Tables {
    t.(bips := map k | k in t.bips && k.ip != ip :: t.bips[k])
  }

  function RemoveBanAllJails(t: Tables, ip: string): Tables {
    DeleteCurrentOf(DeleteRowsOf(t, ip), ip)
  }

  function RemoveAllBans(t: Tables): Tables {
    t.(bans := map[]).(bips := map[])
  }

  /** Past its time at `now`, in whole seconds; permanent bans never are. */
  predicate Over(time: int, info: BanInfo, now: int) {
    info.bantime.Some? && time + info.bantime.value < now
  }

  /** A current ban whose row says that it is over. */
  predicate Stale(t: Tables, k: BipKey, now: int)
    requires k in t.bips
  {
    var row := BanKey(k.jail, k.ip, t.bips[k]);
    row in t.bans && Over(row.time, t.bans[row], now)
  }

  predicate IsCurrent(bips: map<BipKey, int>, k: BanKey) {
    BipKey(k.jail, k.ip) in bips && bips[BipKey(k.jail, k.ip)] == k.time
  }

  function DeleteStale(t: Tables, now: int): Tables {
    t.(bips := map k | k in t.bips && !Stale(t, k, now) :: t.bips[k])
  }

  function DeleteOld(t: Tables, cutoff: int): Tables {
    t.(bans := map k | k in t.bans && !(k.time < cutoff && !IsCurrent(t.bips, k)) :: t.bans[k])
  }

  /** Drops the current bans that are over, then the old history that is not current. */
  function Purge(t: Tables, now: int, maxAge: int): Tables {
    DeleteOld(DeleteStale(t, now), now - maxAge)
  }

  /** The row of a current ban. */
  function RowOf(t: Tables, k: BipKey): DbBan
    requires Joined(t, k)
  {
    var info := t.bans[BanKey(k.jail, k.ip, t.bips[k])];
    DbBan(k.jail, k.ip, t.bips[k], info.bantime, info.data)
  }

  /** What `list_bans` may return: the joined rows, each once, newest first. */
  ghost predicate IsListing(t: Tables, rows: seq<DbBan>) {
    && (forall i, j :: 0 <= i < j < |rows| ==> rows[i] != rows[j])
    && (forall i, j :: 0 <= i < j < |rows| ==> rows[i].time >= rows[j].time)
    && forall r: DbBan :: r in rows <==>
         && IsCurrent(t.bips, BanKey(r.jail, r.ip, r.time))
         && BanKey(r.jail, r.ip, r.time) in t.bans
         && t.bans[BanKey(r.jail, r.ip, r.time)] == BanInfo(r.bantime, r.data)
  }

  // ---- Integrity ----

  /** A current ban with its row: what the join finds. */
  predicate Joined(t: Tables, k: BipKey) {
    k in t.bips && BanKey(k.jail, k.ip, t.bips[k]) in t.bans
  }

  /** A current ban without its row. */
  predicate Orphan(t: Tables, k: BipKey) {
    k in t.bips && BanKey(k.jail, k.ip, t.bips[k]) !in t.bans
  }

  /** Every current ban has its row in the history. */
  predicate Integrity(t: Tables) {
    forall k :: k in t.bips ==> Joined(t, k)
  }

  /** `purge` keeps integrity and every current ban that is not over, with its row. */
  lemma PurgeKeepsCurrentBans(t: Tables, now: int, maxAge: int)
    requires Integrity(t)
    ensures Integrity(Purge(t, now, maxAge))
    ensures forall k :: k in Purge(t, now, maxAge).bips <==>
                        Joined(t, k) && !Over(t.bips[k], t.bans[BanKey(k.jail, k.ip, t.bips[k])], now)
    ensures forall k :: k in Purge(t, now, maxAge).bips ==> RowOf(Purge(t, now, maxAge), k) == RowOf(t, k)
  {
  }

  function JoinedKeys(t: Tables): set<BipKey> {
    set k | k in t.bips.Keys && Joined(t, k)
  }

  /** `list_bans` returns exactly one row for each current ban that has its row. */
  lemma ListingIsCurrentBans(t: Tables, rows: seq<DbBan>)
    requires IsListing(t, rows)
    ensures forall r: DbBan :: r in rows <==> Joined(t, BipKey(r.jail, r.ip)) && r == RowOf(t, BipKey(r.jail, r.ip))
    ensures |rows| == |JoinedKeys(t)|
  {
    var keys := seq(|rows|, i requires 0 <= i < |rows| => BipKey(rows[i].jail, rows[i].ip));
    forall k | Joined(t, k)
      ensures k in keys
    {
      assert RowOf(t, k) in rows;
      var i :| 0 <= i < |rows| && rows[i] == RowOf(t, k);
      assert keys[i] == k;
    }
    forall i, j | 0 <= i < j < |keys|
      ensures keys[i] != keys[j]
    {
      assert rows[i] in rows && rows[j] in rows;
    }
    forall i | 0 <= i < |keys|
      ensures Joined(t, keys[i])
    {
      assert rows[i] in rows;
    }
    SameSize(keys, JoinedKeys(t));
  }

  lemma {:induction false} SameSize<T>(s: seq<T>, elements: set<T>)
    requires forall i, j :: 0 <= i < j < |s| ==> s[i] != s[j]
    requires forall x :: x in s <==> x in elements
    ensures |s| == |elements|
  {
    if s == [] {
      assert elements == {};
    } else {
      var last := s[|s| - 1];
      var front := s[..|s| - 1];
      forall x
        ensures x in front <==> x in elements - {last}
      {
        if x in elements && x != last {
          var i :| 0 <= i < |s| && s[i] == x;
          assert front[i] == x;
        }
      }
      SameSize(front, elements - {last});
    }
  }

  /** A listing exists whatever the tables hold. */
  lemma {:induction false} ListingExists(t: Tables) returns (rows: seq<DbBan>)
    ensures IsListing(t, rows)
    decreases t.bips
  {
    if t.bips == map[] {
      return [];
    }
    var oldest := OldestKey(t.bips);
    var smaller := Tables(t.bans, t.bips - {oldest});
    assert t.bips == smaller.bips[oldest := t.bips[oldest]];
    rows := ListingExists(smaller);
    if Joined(t, oldest) {
      var last := RowOf(t, oldest);
      forall i | 0 <= i < |rows|
        ensures rows[i].time >= last.time && rows[i] != last
      {
        assert rows[i] in rows;
      }
      rows := rows + [last];
    }
  }

  lemma {:induction false} OldestKey(bips: map<BipKey, int>) returns (oldest: BipKey)
    requires bips != map[]
    ensures oldest in bips && forall k :: k in bips ==> bips[oldest] <= bips[k]
    decreases bips
  {
    oldest := Member(bips.Keys);
    var rest := bips - {oldest};
    if rest != map[] {
      var other := OldestKey(rest);
      assert forall k :: k in bips ==> k == oldest || k in rest;
      if bips[other] < bips[oldest] {
        oldest := other;
      }
    } else {
      forall k | k in bips
        ensures k == oldest
      {
        assert k !in rest;
      }
    }
  }

  /** Adding a ban and removing it again restores the history exactly when the
      ban is newer than every ban of that address on record. */
  lemma AddThenRemove(t: Tables, jail: string, ip: string, time: int, info: BanInfo)
    ensures RemoveBan(AddBan(t, jail, ip, time, info), jail, ip).bans == t.bans <==>
            forall s :: s in Times(t.bans, jail, ip) ==> s < time
  {
    var key := BanKey(jail, ip, time);
    var added := AddBan(t, jail, ip, time, info);
    forall s
      ensures s in Times(added.bans, jail, ip) <==> s == time || s in Times(t.bans, jail, ip)
    {
      TimesHas(added.bans, jail, ip, s);
      TimesHas(t.bans, jail, ip, s);
    }
    TimesHas(added.bans, jail, ip, time);
    var newest := Newest(Times(added.bans, jail, ip));
    TimesHas(t.bans, jail, ip, time);
    if forall s :: s in Times(t.bans, jail, ip) ==> s < time {
      assert newest == time && key !in t.bans;
      assert t.bans[key := info] - {key} == t.bans;
    } else {
      TimesHas(t.bans, jail, ip, newest);
      assert BanKey(jail, ip, newest) !in RemoveBan(added, jail, ip).bans;
      assert newest in Times(t.bans, jail, ip);
    }
  }

  /** A current ban that is no older than the history of its address is the row
      that `remove_ban` deletes; removal leaves every other row alone. */
  lemma RemoveBanDeletes(t: Tables, jail: string, ip: string)
    requires Joined(t, BipKey(jail, ip))
    requires forall s :: s in Times(t.bans, jail, ip) ==> s <= t.bips[BipKey(jail, ip)]
    ensures RemoveBan(t, jail, ip) ==
            Tables(t.bans - {BanKey(jail, ip, t.bips[BipKey(jail, ip)])}, t.bips - {BipKey(jail, ip)})
    ensures BanCount(RemoveBan(t, jail, ip), jail, ip) == BanCount(t, jail, ip) - 1
  {
    var time := t.bips[BipKey(jail, ip)];
    TimesHas(t.bans, jail, ip, time);
    var after := RemoveBan(t, jail, ip).bans;
    forall s
      ensures s in Times(after, jail, ip) <==> s in Times(t.bans, jail, ip) - {time}
    {
      TimesHas(after, jail, ip, s);
      TimesHas(t.bans, jail, ip, s);
    }
    assert Times(after, jail, ip) == Times(t.bans, jail, ip) - {time};
  }

  /** A purge takes out the current bans whose row ended before `now`, and the
      rows older than `maxAge` that are then nobody's current ban; nothing else. */
  lemma PurgeLeaves(t: Tables, now: int, maxAge: int)
    ensures var after := Purge(t, now, maxAge);
            && (forall k: BipKey :: k in after.bips <==>
                  && k in t.bips
                  && !(BanKey(k.jail, k.ip, t.bips[k]) in t.bans
                       && match t.bans[BanKey(k.jail, k.ip, t.bips[k])].bantime
                          case Some(secs) => t.bips[k] + secs < now
                          case None => false))
            && (forall k :: k in after.bips ==> after.bips[k] == t.bips[k])
            && (forall k: BanKey :: k in after.bans <==>
                  && k in t.bans
                  && (now - k.time <= maxAge
                      || (BipKey(k.jail, k.ip) in after.bips && after.bips[BipKey(k.jail, k.ip)] == k.time)))
            && (forall k :: k in after.bans ==> after.bans[k] == t.bans[k])
  {
  }

  /** Removing an address from all jails leaves no row of it in either table, and
      every row of the others. */
  lemma RemovesAddress(t: Tables, ip: string)
    ensures var after := RemoveBanAllJails(t, ip);
            && (forall k: BipKey :: k in after.bips <==> k in t.bips && k.ip != ip)
            && (forall k :: k in after.bips ==> after.bips[k] == t.bips[k])
            && (forall k: BanKey :: k in after.bans <==> k in t.bans && k.ip != ip)
            && (forall k :: k in after.bans ==> after.bans[k] == t.bans[k])
  {
  }
}
