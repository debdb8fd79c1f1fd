/**
 Runs of store calls, each complete or cut short by a crash after its first
 statement.
 */
module StoreSteps {
  import opened Prelude
  import opened BanTables

  /** A call on the store. */
  datatype Edit =
    | Add(jail: string, ip: string, time: int, info: BanInfo)
    | Remove(jail: string, ip: string)
    | RemoveIp(ip: string)
    | RemoveAll
    | PurgeOld(now: int, maxAge: int)

  /** A call that is made, or that a crash cuts after its first statement. */
  datatype Step = Whole(edit: Edit) | Cut(edit: Edit)

  ghost function FirstHalf(t: Tables, e: Edit): Tables {
    match e
    case Add(jail, ip, time, info) => InsertRow(t, jail, ip, time, info)
    case Remove(jail, ip) => DeleteNewest(t, jail, ip)
    case RemoveIp(ip) => DeleteRowsOf(t, ip)
    case RemoveAll => t.(bans := map[])
    case PurgeOld(now, _) => DeleteStale(t, now)
  }

  ghost function SecondHalf(t: Tables, e: Edit): Tables {
    match e
    case Add(jail, ip, time, _) => SetCurrent(t, jail, ip, time)
    case Remove(jail, ip) => DeleteCurrent(t, jail, ip)
    case RemoveIp(ip) => DeleteCurrentOf(t, ip)
    case RemoveAll => t.(bips := map[])
    case PurgeOld(now, maxAge) => DeleteOld(t, now - maxAge)
  }

  ghost function Execute(t: Tables, e: Edit): Tables {
    SecondHalf(FirstHalf(t, e), e)
  }

  ghost function Apply(t: Tables, s: Step): Tables {
    if s.Cut? then FirstHalf(t, s.edit) else Execute(t, s.edit)
  }

  ghost function Run(t: Tables, steps: seq<Step>): Tables
    decreases |steps|
  {
    if steps == [] then t else Run(Apply(t, steps[0]), steps[1..])
  }

  lemma {:induction false} RunConcat(t: Tables, a: seq<Step>, b: seq<Step>)
    ensures Run(t, a + b) == Run(Run(t, a), b)
    decreases |a|
  {
    if a == [] {
      assert a + b == b;
    } else {
      assert (a + b)[0] == a[0] && (a + b)[1..] == a[1..] + b;
      RunConcat(Apply(t, a[0]), a[1..], b);
    }
  }

  // ---- Integrity ----

  /** The first statement of the call deletes the row of a current ban: the ban
      removed is the newest of its pair, or belongs to the address removed. */
  ghost predicate DeletesCurrentRow(t: Tables, e: Edit) {
    match e
    case Remove(jail, ip) =>
      BipKey(jail, ip) in t.bips && IsNewest(t.bips[BipKey(jail, ip)], Times(t.bans, jail, ip))
    case RemoveIp(ip) => exists k :: Joined(t, k) && k.ip == ip
    case RemoveAll => exists k :: Joined(t, k)
    case _ => false
  }

  lemma NewestUnique(a: int, b: int, times: set<int>)
    requires IsNewest(a, times) && IsNewest(b, times)
    ensures a == b
  {
  }

  /** What a first statement leaves of a current ban. */
  lemma CutRemove(t: Tables, jail: string, ip: string)
    requires Integrity(t)
    ensures Integrity(DeleteNewest(t, jail, ip)) <==> !DeletesCurrentRow(t, Remove(jail, ip))
  {
    var k := BipKey(jail, ip);
    var after := DeleteNewest(t, jail, ip);
    if k in t.bips {
      assert Joined(t, k);
      TimesHas(t.bans, jail, ip, t.bips[k]);
      var newest := Newest(Times(t.bans, jail, ip));
      if IsNewest(t.bips[k], Times(t.bans, jail, ip)) {
        NewestUnique(newest, t.bips[k], Times(t.bans, jail, ip));
        assert !Joined(after, k);
      }
    }
    forall other | other in t.bips && other != k
      ensures Joined(after, other)
    {
      assert Joined(t, other);
    }
  }

  /** Cutting a call loses integrity exactly when its first statement deleted
      the row of a current ban. */
  lemma CutKeepsIff(t: Tables, e: Edit)
    requires Integrity(t)
    ensures Integrity(FirstHalf(t, e)) <==> !DeletesCurrentRow(t, e)
  {
    var after := FirstHalf(t, e);
    match e
    case Add(_, _, _, _) =>
      assert forall k :: k in after.bips ==> Joined(t, k) && Joined(after, k);
    case Remove(jail, ip) =>
      CutRemove(t, jail, ip);
    case RemoveIp(ip) =>
      assert forall k :: k in after.bips ==> Joined(t, k) && (Joined(after, k) <==> k.ip != ip);
    case RemoveAll =>
      assert forall k :: k in after.bips ==> Joined(t, k) && !Joined(after, k);
    case PurgeOld(_, _) =>
      assert forall k :: k in after.bips ==> Joined(t, k) && Joined(after, k);
  }

  /** A complete call makes no orphan, whatever the tables hold. */
  lemma WholeMakesNoOrphan(t: Tables, e: Edit, k: BipKey)
    requires Orphan(Execute(t, e), k)
    ensures Orphan(t, k)
  {
  }

  /** A cut call makes one only by deleting the row of a current ban. */
  lemma CutMakesOrphan(t: Tables, e: Edit, k: BipKey)
    requires !Orphan(t, k) && Orphan(FirstHalf(t, e), k)
    ensures DeletesCurrentRow(t, e)
  {
    assert Joined(t, k);
  }

  lemma WholeKeeps(t: Tables, e: Edit)
    requires Integrity(t)
    ensures Integrity(Execute(t, e))
  {
    forall k | k in Execute(t, e).bips
      ensures Joined(Execute(t, e), k)
    {
      if Orphan(Execute(t, e), k) {
        WholeMakesNoOrphan(t, e, k);
      }
    }
  }

  ghost predicate AlwaysIntegrity(t: Tables, steps: seq<Step>)
    decreases |steps|
  {
    Integrity(t) && (steps == [] || AlwaysIntegrity(Apply(t, steps[0]), steps[1..]))
  }

  /** No crash comes right after a statement that deleted a current row. */
  ghost predicate NoOrphaningCut(t: Tables, steps: seq<Step>)
    decreases |steps|
  {
    steps == []
    || (!(steps[0].Cut? && DeletesCurrentRow(t, steps[0].edit)) && NoOrphaningCut(Apply(t, steps[0]), steps[1..]))
  }

  /** Integrity holds all along a run exactly when it holds at first and no
      crash falls inside a removal that had deleted the row of a current ban. */
  lemma {:induction false} IntegrityIff(t: Tables, steps: seq<Step>)
    ensures AlwaysIntegrity(t, steps) <==> Integrity(t) && NoOrphaningCut(t, steps)
    decreases |steps|
  {
    if steps != [] && Integrity(t) {
      if steps[0].Cut? {
        CutKeepsIff(t, steps[0].edit);
      } else {
        WholeKeeps(t, steps[0].edit);
      }
      IntegrityIff(Apply(t, steps[0]), steps[1..]);
    }
  }

  /** The step takes the pair out of `bips`, or gives it a row. */
  predicate Heals(t: Tables, s: Step, k: BipKey)
    requires k in t.bips
  {
    match s.edit
    case Add(jail, ip, time, _) => k == BipKey(jail, ip) && (s.Whole? || time == t.bips[k])
    case Remove(jail, ip) => k == BipKey(jail, ip) && s.Whole?
    case RemoveIp(ip) => k.ip == ip && s.Whole?
    case RemoveAll => s.Whole?
    case PurgeOld(_, _) => false
  }

  /** An orphan stays until its own pair is banned again or removed: no purge
      takes it away, and no listing shows it. */
  lemma OrphanStaysIff(t: Tables, s: Step, k: BipKey)
    requires Orphan(t, k)
    ensures Orphan(Apply(t, s), k) <==> !Heals(t, s, k)
  {
  }

  lemma OrphanNotListed(t: Tables, k: BipKey, rows: seq<DbBan>)
    requires Orphan(t, k) && IsListing(t, rows)
    ensures forall r :: r in rows ==> BipKey(r.jail, r.ip) != k
  {
    ListingIsCurrentBans(t, rows);
  }

  /** A removal that a crash cuts leaves an orphan: one row, and then none. */
  lemma CutOrphans(k: BipKey, time: int, info: BanInfo, t: Tables)
    requires t == Tables(map[BanKey(k.jail, k.ip, time) := info], map[k := time])
    ensures Integrity(t) && Orphan(Apply(t, Cut(Remove(k.jail, k.ip))), k)
  {
    var times := Times(t.bans, k.jail, k.ip);
    TimesHas(t.bans, k.jail, k.ip, time);
    assert forall s :: s in times ==> s == time;
    assert IsNewest(time, times);
    NewestUnique(time, Newest(times), times);
  }

  // ---- The newest row ----

  /** Every ban of the run is newer than those of its address on record. */
  ghost predicate IncreasingTimes(t: Tables, steps: seq<Step>)
    decreases |steps|
  {
    steps == []
    || ((steps[0].edit.Add? ==>
           forall s :: s in Times(t.bans, steps[0].edit.jail, steps[0].edit.ip) ==> s < steps[0].edit.time)
        && IncreasingTimes(Apply(t, steps[0]), steps[1..]))
  }

  /** The current ban is the newest on record, for every address. */
  ghost predicate CurrentIsNewest(t: Tables) {
    forall k, s :: k in t.bips && s in Times(t.bans, k.jail, k.ip) ==> s <= t.bips[k]
  }

  lemma WholeKeepsNewest(t: Tables, e: Edit)
    requires CurrentIsNewest(t)
    requires e.Add? ==> forall u :: u in Times(t.bans, e.jail, e.ip) ==> u < e.time
    ensures CurrentIsNewest(Execute(t, e))
  {
    var after := Execute(t, e);
    forall k, time | k in after.bips && time in Times(after.bans, k.jail, k.ip)
      ensures time <= after.bips[k]
    {
      TimesHas(after.bans, k.jail, k.ip, time);
      TimesHas(t.bans, k.jail, k.ip, time);
    }
  }

  /** Without crashes and with increasing ban times the current ban of an
      address is always its newest row. */
  lemma {:induction false} NewestThroughout(t: Tables, steps: seq<Step>)
    requires CurrentIsNewest(t) && IncreasingTimes(t, steps) && forall s :: s in steps ==> s.Whole?
    ensures CurrentIsNewest(Run(t, steps))
    decreases |steps|
  {
    if steps != [] {
      assert steps[0] in steps;
      WholeKeepsNewest(t, steps[0].edit);
      NewestThroughout(Apply(t, steps[0]), steps[1..]);
    }
  }

  // ---- How many rows a pair has ----

  /** The rows of a pair after a step, from the rows before it: bans push a row
      and removals pop one, whether or not they are cut. */
  function CountAfter(n: nat, s: Step, jail: string, ip: string): nat {
    match s.edit
    case Add(j, i, _, _) => if j == jail && i == ip then n + 1 else n
    case Remove(j, i) => if j == jail && i == ip && n > 0 then n - 1 else n
    case RemoveIp(i) => if i == ip then 0 else n
    case RemoveAll => 0
    case PurgeOld(_, _) => n
  }

  function Count(n: nat, steps: seq<Step>, jail: string, ip: string): nat
    decreases |steps|
  {
    if steps == [] then n else Count(CountAfter(n, steps[0], jail, ip), steps[1..], jail, ip)
  }

  /** No ban of the pair has the time of a row on record, and nothing is purged. */
  ghost predicate NewTimes(t: Tables, steps: seq<Step>, jail: string, ip: string)
    decreases |steps|
  {
    steps == []
    || (!steps[0].edit.PurgeOld?
        && (steps[0].edit.Add? && steps[0].edit.jail == jail && steps[0].edit.ip == ip ==>
              steps[0].edit.time !in Times(t.bans, jail, ip))
        && NewTimes(Apply(t, steps[0]), steps[1..], jail, ip))
  }

  /** The times of a pair, read off the rows. */
  lemma TimesAre(bans: map<BanKey, BanInfo>, jail: string, ip: string, times: set<int>)
    requires forall time :: time in times <==> BanKey(jail, ip, time) in bans
    ensures Times(bans, jail, ip) == times
  {
    forall time
      ensures time in Times(bans, jail, ip) <==> time in times
    {
      TimesHas(bans, jail, ip, time);
    }
  }

  lemma RowsAre(t: Tables, jail: string, ip: string)
    ensures forall time :: time in Times(t.bans, jail, ip) <==> BanKey(jail, ip, time) in t.bans
  {
    forall time
      ensures time in Times(t.bans, jail, ip) <==> BanKey(jail, ip, time) in t.bans
    {
      TimesHas(t.bans, jail, ip, time);
    }
  }

  lemma CountInsert(t: Tables, e: Edit, jail: string, ip: string)
    requires e.Add? && (e.jail == jail && e.ip == ip ==> e.time !in Times(t.bans, jail, ip))
    ensures BanCount(FirstHalf(t, e), jail, ip) == CountAfter(BanCount(t, jail, ip), Whole(e), jail, ip)
  {
    RowsAre(t, jail, ip);
    var times := Times(t.bans, jail, ip);
    TimesAre(FirstHalf(t, e).bans, jail, ip, if e.jail == jail && e.ip == ip then times + {e.time} else times);
  }

  lemma CountDelete(t: Tables, e: Edit, jail: string, ip: string)
    requires e.Remove?
    ensures BanCount(FirstHalf(t, e), jail, ip) == CountAfter(BanCount(t, jail, ip), Whole(e), jail, ip)
  {
    RowsAre(t, jail, ip);
    var times := Times(t.bans, jail, ip);
    TimesAre(FirstHalf(t, e).bans, jail, ip,
             if e.jail == jail && e.ip == ip && times != {} then times - {Newest(times)} else times);
  }

  lemma CountDeleteAll(t: Tables, e: Edit, jail: string, ip: string)
    requires e.RemoveIp? || e.RemoveAll?
    ensures BanCount(FirstHalf(t, e), jail, ip) == CountAfter(BanCount(t, jail, ip), Whole(e), jail, ip)
  {
    RowsAre(t, jail, ip);
    var times := Times(t.bans, jail, ip);
    TimesAre(FirstHalf(t, e).bans, jail, ip, if e.RemoveIp? && e.ip != ip then times else {});
  }

  /** The first statement settles the count; the second leaves `bans` alone. */
  lemma CountStep(t: Tables, s: Step, jail: string, ip: string)
    requires !s.edit.PurgeOld?
    requires s.edit.Add? && s.edit.jail == jail && s.edit.ip == ip ==> s.edit.time !in Times(t.bans, jail, ip)
    ensures BanCount(Apply(t, s), jail, ip) == CountAfter(BanCount(t, jail, ip), s, jail, ip)
  {
    if s.edit.Add? {
      CountInsert(t, s.edit, jail, ip);
    } else if s.edit.Remove? {
      CountDelete(t, s.edit, jail, ip);
    } else {
      CountDeleteAll(t, s.edit, jail, ip);
    }
    assert Apply(t, s).bans == FirstHalf(t, s.edit).bans;
  }

  /** The number of rows that escalation counts is the number of bans of the
      pair that no removal has taken back. */
  lemma {:induction false} CountIsUnremoved(t: Tables, steps: seq<Step>, jail: string, ip: string)
    requires NewTimes(t, steps, jail, ip)
    ensures BanCount(Run(t, steps), jail, ip) == Count(BanCount(t, jail, ip), steps, jail, ip)
    decreases |steps|
  {
    if steps != [] {
      CountStep(t, steps[0], jail, ip);
      CountIsUnremoved(Apply(t, steps[0]), steps[1..], jail, ip);
    }
  }
}
