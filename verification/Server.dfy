/** The server's operations on all jails: each loops over the running jails and edits the store. */
module Server {
  import opened Prelude
  import opened JailTask
  import opened Restart
  import M = BanManager
  import S = Store
  import T = BanTables

  class JailHandle {
    const name: string
    const banMgr: M.BanManager
    var queue: seq<Command>

    constructor (name: string, banMgr: M.BanManager)
      ensures this.name == name && this.banMgr == banMgr && queue == []
    {
      this.name := name;
      this.banMgr := banMgr;
      queue := [];
    }

    method Send(command: Command)
      modifies this
      ensures queue == old(queue) + [command]
    {
      queue := queue + [command];
    }
  }

  function WithUnban(queue: seq<Command>, banned: bool, ip: string): seq<Command> {
    if banned then queue + [Command.UnbanIp(ip)] else queue
  }

  predicate Runs(jails: seq<JailHandle>, name: string) {
    exists i :: 0 <= i < |jails| && jails[i].name == name
  }

  /** The list of jails once `handles` have been started in turn. */
  function Started(jails: seq<JailHandle>, handles: seq<JailHandle>): seq<JailHandle>
    decreases |handles|
  {
    if handles == [] then jails
    else Started(if Runs(jails, handles[0].name) then jails else jails + [handles[0]], handles[1..])
  }

  lemma {:induction false} OneRowLess(queue: seq<Command>, rows: seq<T.DbBan>, i: nat, jail: string,
                                      parse: string -> Option<string>)
    requires i < |rows|
    ensures queue + RestoreCommands(rows[i..], jail, parse) ==
            (if rows[i].jail == jail then queue + [Lifecycle.RestoreCommand(rows[i], parse(rows[i].ip))] else queue)
            + RestoreCommands(rows[i + 1..], jail, parse)
  {
    assert rows[i..][1..] == rows[i + 1..];
  }

  class Server {
    var jails: seq<JailHandle>
    const db: S.Database

    /** No jail runs twice. */
    ghost predicate Valid()
      reads this
    {
      forall i, j :: 0 <= i < j < |jails| ==> jails[i] != jails[j] && jails[i].name != jails[j].name
    }

    constructor (db: S.Database)
      ensures Valid() && this.db == db && jails == []
    {
      this.db := db;
      jails := [];
    }

    /** A jail whose name is running already is not started. */
    method StartJail(handle: JailHandle) returns (ok: bool)
      requires Valid()
      modifies this
      ensures Valid() && jails == Started(old(jails), [handle])
      ensures ok <==> !Runs(old(jails), handle.name)
    {
      var at := Find(handle.name);
      ok := at.None?;
      if ok {
        jails := jails + [handle];
      }
    }

    /** Starts the jails one after the other, and then restores the bans that
        the store lists. */
    method StartAllEnabled(handles: seq<JailHandle>, rows: seq<T.DbBan>, parse: string -> Option<string>)
      returns (count: nat)
      requires Valid() && T.IsListing(db.View(), rows)
      modifies this, jails, handles
      ensures Valid() && jails == Started(old(jails), handles)
      ensures |jails| == |old(jails)| + count
      ensures forall h :: h in jails ==> h in old(jails) || h in handles
      ensures forall h :: (h in old(jails) || h in handles) && h in jails ==>
                h.queue == old(h.queue) + RestoreCommands(rows, h.name, parse)
    {
      count := 0;
      ghost var before := jails;
      var i := 0;
      while i < |handles|
        modifies this
        invariant 0 <= i <= |handles| && Valid()
        invariant Started(before, handles) == Started(jails, handles[i..])
        invariant |jails| == |before| + count
        invariant forall j :: 0 <= j < |jails| ==> jails[j] in before || jails[j] in handles
      {
        assert handles[i..][0] == handles[i] && handles[i..][1..] == handles[i + 1..];
        var ok := StartJail(handles[i]);
        if ok {
          count := count + 1;
        }
        i := i + 1;
      }
      RestoreBans(rows, parse);
    }

    method UnbanIp(ip: string) returns (found: bool)
      requires Valid()
      modifies jails, db
      ensures forall h :: h in jails ==>
                h.queue == WithUnban(old(h.queue), ip in h.banMgr.bans, ip)
      ensures found <==> exists h :: h in jails && ip in h.banMgr.bans
      ensures db.View() == if found then T.RemoveBanAllJails(old(db.View()), ip) else old(db.View())
    {
      found := false;
      var i := 0;
      while i < |jails|
        modifies jails
        invariant 0 <= i <= |jails|
        invariant found <==> exists j :: 0 <= j < i && ip in jails[j].banMgr.bans
        invariant forall j :: 0 <= j < i ==>
                    jails[j].queue == WithUnban(old(jails[j].queue), ip in jails[j].banMgr.bans, ip)
        invariant forall j :: i <= j < |jails| ==> jails[j].queue == old(jails[j].queue)
      {
        var jail := jails[i];
        if ip in jail.banMgr.bans {
          jail.Send(Command.UnbanIp(ip));
          found := true;
        }
        assert forall j :: 0 <= j < |jails| && j != i ==> jails[j] != jail;
        i := i + 1;
      }
      if found {
        db.RemoveBanAllJails(ip);
      }
    }

    method UnbanAll()
      requires Valid()
      modifies jails, db
      ensures forall h :: h in jails ==> h.queue == old(h.queue) + [FlushAll]
      ensures db.View() == T.Tables(map[], map[])
    {
      var i := 0;
      while i < |jails|
        modifies jails
        invariant 0 <= i <= |jails|
        invariant forall j :: 0 <= j < i ==> jails[j].queue == old(jails[j].queue) + [FlushAll]
        invariant forall j :: i <= j < |jails| ==> jails[j].queue == old(jails[j].queue)
      {
        jails[i].Send(FlushAll);
        i := i + 1;
      }
      db.RemoveAllBans();
    }

    /** The running jail with this name. */
    method Find(name: string) returns (at: Option<nat>)
      ensures at.Some? ==> at.value < |jails| && jails[at.value].name == name
      ensures at.None? ==> forall i :: 0 <= i < |jails| ==> jails[i].name != name
    {
      var i := 0;
      while i < |jails|
        invariant 0 <= i <= |jails|
        invariant forall j :: 0 <= j < i ==> jails[j].name != name
      {
        if jails[i].name == name {
          return Some(i);
        }
        i := i + 1;
      }
      at := None;
    }

    /** Sends the rows of a listing to the jails they belong to. */
    method RestoreBans(rows: seq<T.DbBan>, parse: string -> Option<string>)
      requires Valid() && T.IsListing(db.View(), rows)
      modifies jails
      ensures forall h :: h in jails ==> h.queue == old(h.queue) + RestoreCommands(rows, h.name, parse)
    {
      ghost var n := |rows|;
      assert rows[0..] == rows && rows[n..] == [];
      var i := 0;
      while i < |rows|
        invariant 0 <= i <= |rows|
        invariant forall j :: 0 <= j < |jails| ==>
                    jails[j].queue + RestoreCommands(rows[i..], jails[j].name, parse) ==
                    old(jails[j].queue) + RestoreCommands(rows, jails[j].name, parse)
      {
        forall j | 0 <= j < |jails| {
          OneRowLess(jails[j].queue, rows, i, jails[j].name, parse);
        }
        var at := Find(rows[i].jail);
        if at.Some? {
          jails[at.value].Send(Lifecycle.RestoreCommand(rows[i], parse(rows[i].ip)));
        }
        i := i + 1;
      }
      forall h | h in jails
        ensures h.queue + [] == h.queue
      {
      }
    }
  }
}
