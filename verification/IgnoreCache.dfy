/**
 The cache of `ignorecommand` results. Entries are in insertion order; a key
 that is stored again keeps its place. Times are readings of a monotone clock.
 */
module IgnoreCache {
  import opened Prelude

  datatype Entry = Entry(key: string, result: bool, stored: int)

  datatype Limits = Limits(maxCount: nat, maxTime: int)

  /** Index of the entry of a key, or the number of entries. */
  function Position(entries: seq<Entry>, key: string): (i: nat)
    ensures i <= |entries|
    ensures i < |entries| ==> entries[i].key == key
    ensures forall j :: 0 <= j < i ==> entries[j].key != key
  {
    if entries == [] || entries[0].key == key then 0 else 1 + Position(entries[1..], key)
  }

  predicate Distinct(entries: seq<Entry>) {
    forall i, j :: 0 <= i < j < |entries| ==> entries[i].key != entries[j].key
  }

  /** `duration_since`, which is zero for a later time. */
  function Age(now: int, stored: int): int {
    Max(now - stored, 0)
  }

  predicate IsOld(limits: Limits, e: Entry, now: int) {
    Age(now, e.stored) > limits.maxTime
  }

  function Lookup(limits: Limits, entries: seq<Entry>, key: string, now: int): Option<bool> {
    var i := Position(entries, key);
    if i == |entries| || IsOld(limits, entries[i], now) then None else Some(entries[i].result)
  }

  /** Index of the first old entry, or the number of entries. */
  function FirstOld(limits: Limits, entries: seq<Entry>, now: int): (i: nat)
    ensures i <= |entries|
    ensures i < |entries| ==> IsOld(limits, entries[i], now)
    ensures forall j :: 0 <= j < i ==> !IsOld(limits, entries[j], now)
  {
    if entries == [] || IsOld(limits, entries[0], now) then 0 else 1 + FirstOld(limits, entries[1..], now)
  }

  /** At capacity one entry goes: the first old one, else the first. */
  function Evicted(limits: Limits, entries: seq<Entry>, now: int): seq<Entry> {
    if |entries| < limits.maxCount || entries == [] then entries
    else
      var oldest := FirstOld(limits, entries, now);
      if oldest < |entries| then entries[..oldest] + entries[oldest + 1..] else entries[1..]
  }

  function Stored(entries: seq<Entry>, e: Entry): seq<Entry> {
    var i := Position(entries, e.key);
    if i < |entries| then entries[i := e] else entries + [e]
  }

  /** `insert` reads the clock twice. */
  function Inserted(limits: Limits, entries: seq<Entry>, key: string, result: bool, now: int, later: int): seq<Entry> {
    Stored(Evicted(limits, entries, now), Entry(key, result, later))
  }

  // ---- Runs ----

  /** One `check_ignorecommand`: the clock at the lookup, at the eviction and
      at the insertion, and what the command returns if it is run. */
  datatype Check = Check(key: string, looked: int, evicted: int, inserted: int, outcome: bool)

  function Answer(limits: Limits, entries: seq<Entry>, c: Check): bool {
    match Lookup(limits, entries, c.key, c.looked)
    case Some(cached) => cached
    case None => c.outcome
  }

  function After(limits: Limits, entries: seq<Entry>, c: Check): seq<Entry> {
    if Lookup(limits, entries, c.key, c.looked).Some? then entries
    else Inserted(limits, entries, c.key, c.outcome, c.evicted, c.inserted)
  }

  function Run(limits: Limits, checks: seq<Check>): seq<Entry> {
    if checks == [] then [] else After(limits, Run(limits, checks[..|checks| - 1]), checks[|checks| - 1])
  }

  /** Check `i` of a run ran the command. */
  predicate Ran(limits: Limits, checks: seq<Check>, i: nat)
    requires i < |checks|
  {
    Lookup(limits, Run(limits, checks[..i]), checks[i].key, checks[i].looked).None?
  }

  /** Check `i` is the last run of the command for the key. */
  ghost predicate LastRun(limits: Limits, checks: seq<Check>, key: string, i: int) {
    && 0 <= i < |checks| && checks[i].key == key && Ran(limits, checks, i)
    && forall j :: i < j < |checks| && checks[j].key == key ==> !Ran(limits, checks, j)
  }

  ghost predicate Backed(limits: Limits, checks: seq<Check>, e: Entry) {
    exists i :: LastRun(limits, checks, e.key, i) && checks[i].outcome == e.result && checks[i].inserted == e.stored
  }

  lemma {:induction false} RunPrefix(limits: Limits, checks: seq<Check>, c: Check, i: nat)
    requires i < |checks|
    ensures Ran(limits, checks + [c], i) == Ran(limits, checks, i)
  {
    assert (checks + [c])[..i] == checks[..i];
  }

  lemma {:induction false} BackedStays(limits: Limits, checks: seq<Check>, c: Check, e: Entry)
    requires Backed(limits, checks, e)
    requires c.key == e.key ==> Lookup(limits, Run(limits, checks), c.key, c.looked).Some?
    ensures Backed(limits, checks + [c], e)
  {
    var i :| LastRun(limits, checks, e.key, i) && checks[i].outcome == e.result && checks[i].inserted == e.stored;
    var all := checks + [c];
    assert all[..|checks|] == checks;
    RunPrefix(limits, checks, c, i);
    forall j | i < j < |all| && all[j].key == e.key
      ensures !Ran(limits, all, j)
    {
      if j < |checks| {
        RunPrefix(limits, checks, c, j);
      }
    }
    assert LastRun(limits, all, e.key, i);
  }

  lemma InsertedFrom(limits: Limits, entries: seq<Entry>, key: string, result: bool, now: int, later: int)
    requires Distinct(entries)
    ensures var after := Inserted(limits, entries, key, result, now, later);
            && Distinct(after)
            && (forall e :: e in after ==> e == Entry(key, result, later) || (e in entries && e.key != key))
            && Entry(key, result, later) in after
            && (limits.maxCount > 0 && |entries| <= limits.maxCount ==> |after| <= limits.maxCount)
  {
    var kept := Evicted(limits, entries, now);
    assert Distinct(kept) && forall e :: e in kept ==> e in entries;
    var i := Position(kept, key);
    var after := Stored(kept, Entry(key, result, later));
    if i == |kept| {
      assert after[|kept|] == Entry(key, result, later);
    } else {
      assert after[i] == Entry(key, result, later);
    }
  }

  lemma {:induction false} RunStep(limits: Limits, checks: seq<Check>, c: Check)
    ensures Run(limits, checks + [c]) == After(limits, Run(limits, checks), c)
    ensures Ran(limits, checks + [c], |checks|) <==> Lookup(limits, Run(limits, checks), c.key, c.looked).None?
  {
    assert (checks + [c])[..|checks|] == checks;
  }

  lemma {:induction false} AllBackedStep(limits: Limits, checks: seq<Check>, c: Check, entries: seq<Entry>)
    requires entries == Run(limits, checks) && Distinct(entries)
    requires forall e :: e in entries ==> Backed(limits, checks, e)
    ensures forall e :: e in After(limits, entries, c) ==> Backed(limits, checks + [c], e)
  {
    RunStep(limits, checks, c);
    var hit := Lookup(limits, entries, c.key, c.looked).Some?;
    if !hit {
      InsertedFrom(limits, entries, c.key, c.outcome, c.evicted, c.inserted);
      assert LastRun(limits, checks + [c], c.key, |checks|);
    }
    forall e | e in After(limits, entries, c)
      ensures Backed(limits, checks + [c], e)
    {
      if hit || e != Entry(c.key, c.outcome, c.inserted) {
        BackedStays(limits, checks, c, e);
      }
    }
  }

  /** The cache never exceeds its capacity, and each entry is the outcome of
      the last run of the command for its key. */
  lemma {:induction false} RunInvariant(limits: Limits, checks: seq<Check>)
    requires limits.maxCount > 0
    ensures Distinct(Run(limits, checks)) && |Run(limits, checks)| <= limits.maxCount
    ensures forall e :: e in Run(limits, checks) ==> Backed(limits, checks, e)
  {
    if checks != [] {
      var front, c := checks[..|checks| - 1], checks[|checks| - 1];
      RunInvariant(limits, front);
      assert checks == front + [c];
      RunStep(limits, front, c);
      InsertedFrom(limits, Run(limits, front), c.key, c.outcome, c.evicted, c.inserted);
      AllBackedStep(limits, front, c, Run(limits, front));
    }
  }

  /** An answer is what the command returns now, or what it returned the last
      time it was run for this key, stored at most `maxTime` ago. */
  lemma {:induction false} AnswersAgree(limits: Limits, checks: seq<Check>, c: Check)
    requires limits.maxCount > 0
    ensures var answer := Answer(limits, Run(limits, checks), c);
            || (Ran(limits, checks + [c], |checks|) && answer == c.outcome)
            || exists i :: && LastRun(limits, checks, c.key, i) && answer == checks[i].outcome
                           && Age(c.looked, checks[i].inserted) <= limits.maxTime
  {
    assert (checks + [c])[..|checks|] == checks;
    RunInvariant(limits, checks);
    var entries := Run(limits, checks);
    if Lookup(limits, entries, c.key, c.looked).Some? {
      var e := entries[Position(entries, c.key)];
      assert e in entries && Backed(limits, checks, e);
    }
  }

  /** Storing a result evicts nothing while there is room, and nothing that is
      still fresh while an old entry is left. */
  lemma FreshEntriesStay(limits: Limits, entries: seq<Entry>, key: string, result: bool, now: int, later: int, e: Entry)
    requires Distinct(entries) && e in entries && e.key != key
    requires |entries| < limits.maxCount
             || (!IsOld(limits, e, now) && exists o :: o in entries && IsOld(limits, o, now))
    ensures e in Inserted(limits, entries, key, result, now, later)
  {
    if |entries| >= limits.maxCount {
      FreshStays(limits, entries, now, e);
      StoredStays(Evicted(limits, entries, now), Entry(key, result, later), e);
    } else {
      StoredStays(entries, Entry(key, result, later), e);
    }
  }

  lemma {:induction false} FreshStays(limits: Limits, entries: seq<Entry>, now: int, e: Entry)
    requires |entries| >= limits.maxCount
    requires e in entries && !IsOld(limits, e, now) && exists o :: o in entries && IsOld(limits, o, now)
    ensures e in Evicted(limits, entries, now)
  {
    var i := FirstOld(limits, entries, now);
    var o :| o in entries && IsOld(limits, o, now);
    var at :| 0 <= at < |entries| && entries[at] == o;
    var j :| 0 <= j < |entries| && entries[j] == e;
    assert Evicted(limits, entries, now)[if j < i then j else j - 1] == e;
  }

  lemma {:induction false} StoredStays(kept: seq<Entry>, stored: Entry, e: Entry)
    requires e in kept && e.key != stored.key
    ensures e in Stored(kept, stored)
  {
    var k :| 0 <= k < |kept| && kept[k] == e;
    assert Stored(kept, stored)[k] == e;
  }

  /** Stored at most `maxTime` ago. */
  predicate Fresh(limits: Limits, stored: int, now: int) {
    0 <= limits.maxTime && now - stored <= limits.maxTime
  }

  /** A lookup hits exactly when there is a fresh entry of the key. */
  lemma {:induction false} HitIff(limits: Limits, entries: seq<Entry>, key: string, now: int, result: bool)
    requires Distinct(entries)
    ensures Lookup(limits, entries, key, now) == Some(result) <==>
            exists e :: e in entries && e.key == key && e.result == result && Fresh(limits, e.stored, now)
  {
    var i := Position(entries, key);
    if i < |entries| {
      assert entries[i] in entries;
    }
  }

  /** The keys of a run's checks, and one place to spare. */
  ghost predicate FewKeys(limits: Limits, checks: seq<Check>, keys: set<string>) {
    |keys| < limits.maxCount && forall i :: 0 <= i < |checks| ==> checks[i].key in keys
  }

  function KeysOf(entries: seq<Entry>): (keys: set<string>)
    ensures forall key :: key in keys <==> exists i :: 0 <= i < |entries| && entries[i].key == key
  {
    set i | 0 <= i < |entries| :: entries[i].key
  }

  lemma {:induction false} AsManyKeys(entries: seq<Entry>)
    requires Distinct(entries)
    ensures |KeysOf(entries)| == |entries|
  {
    if entries != [] {
      var front, last := entries[..|entries| - 1], entries[|entries| - 1];
      AsManyKeys(front);
      assert KeysOf(entries) == KeysOf(front) + {last.key};
      assert last.key !in KeysOf(front);
    }
  }

  /** With few keys there always is room. */
  lemma {:induction false} RoomLeft(limits: Limits, checks: seq<Check>, keys: set<string>)
    requires FewKeys(limits, checks, keys)
    ensures Distinct(Run(limits, checks)) && |Run(limits, checks)| < limits.maxCount
  {
    var entries := Run(limits, checks);
    RunInvariant(limits, checks);
    forall key | key in KeysOf(entries)
      ensures key in keys
    {
      var i :| 0 <= i < |entries| && entries[i].key == key;
      assert entries[i] in entries && Backed(limits, checks, entries[i]);
    }
    SubsetSize(KeysOf(entries), keys);
    AsManyKeys(entries);
  }

  lemma {:induction false} SubsetSize<T>(a: set<T>, b: set<T>)
    requires a <= b
    ensures |a| <= |b|
  {
    assert b == a + (b - a);
  }

  lemma {:induction false} LastRunStays(limits: Limits, checks: seq<Check>, c: Check, key: string, i: int)
    requires LastRun(limits, checks + [c], key, i)
    ensures i < |checks| ==> LastRun(limits, checks, key, i)
    ensures i < |checks| && c.key == key ==> Lookup(limits, Run(limits, checks), c.key, c.looked).Some?
  {
    var all := checks + [c];
    RunStep(limits, checks, c);
    if i < |checks| {
      RunPrefix(limits, checks, c, i);
      forall j | i < j < |checks| && checks[j].key == key
        ensures !Ran(limits, checks, j)
      {
        RunPrefix(limits, checks, c, j);
        assert all[j].key == key;
      }
      assert all[|checks|] == c;
    }
  }

  /** With few keys, the last run of every key is in the cache. */
  lemma {:induction false} LastRunIsStored(limits: Limits, checks: seq<Check>, keys: set<string>, key: string, i: int)
    requires FewKeys(limits, checks, keys) && LastRun(limits, checks, key, i)
    ensures Entry(key, checks[i].outcome, checks[i].inserted) in Run(limits, checks)
  {
    var front, c := checks[..|checks| - 1], checks[|checks| - 1];
    assert checks == front + [c];
    RoomLeft(limits, front, keys);
    RunStep(limits, front, c);
    LastRunStays(limits, front, c, key, i);
    var before := Run(limits, front);
    if !Lookup(limits, before, c.key, c.looked).Some? {
      InsertedFrom(limits, before, c.key, c.outcome, c.evicted, c.inserted);
    }
    if i < |front| {
      LastRunIsStored(limits, front, keys, key, i);
      if c.key != key && Lookup(limits, before, c.key, c.looked).None? {
        FreshEntriesStay(limits, before, c.key, c.outcome, c.evicted, c.inserted,
                         Entry(key, checks[i].outcome, checks[i].inserted));
      }
    }
  }

  /** With fewer keys than places, a check runs the command exactly when it was
      not last run for the key within `maxTime`. */
  lemma {:induction false} RunsIffNotFresh(limits: Limits, checks: seq<Check>, keys: set<string>, c: Check)
    requires FewKeys(limits, checks, keys)
    ensures Ran(limits, checks + [c], |checks|) <==>
            !exists i :: LastRun(limits, checks, c.key, i) && Fresh(limits, checks[i].inserted, c.looked)
  {
    var entries := Run(limits, checks);
    RunInvariant(limits, checks);
    RunStep(limits, checks, c);
    if Lookup(limits, entries, c.key, c.looked).Some? {
      var e := entries[Position(entries, c.key)];
      assert e in entries && Backed(limits, checks, e);
    } else if exists i :: LastRun(limits, checks, c.key, i) && Fresh(limits, checks[i].inserted, c.looked) {
      var i :| LastRun(limits, checks, c.key, i) && Fresh(limits, checks[i].inserted, c.looked);
      LastRunIsStored(limits, checks, keys, c.key, i);
      HitIff(limits, entries, c.key, c.looked, checks[i].outcome);
    }
  }

  /** What storing a result leaves: one entry less when all places are taken,
      the first that is not fresh or else the first of all; then the result, in
      the place of its key if that has one and at the end otherwise. */
  lemma {:induction false} InsertedIs(limits: Limits, entries: seq<Entry>, key: string, result: bool, now: int, later: int)
    returns (kept: seq<Entry>, gone: nat)
    requires Distinct(entries)
    ensures |entries| < limits.maxCount || entries == [] ==> kept == entries
    ensures |entries| >= limits.maxCount && entries != [] ==>
              && gone < |entries| && kept == entries[..gone] + entries[gone + 1..]
              && (if forall e :: e in entries ==> Fresh(limits, e.stored, now) then gone == 0
                  else !Fresh(limits, entries[gone].stored, now)
                       && forall j :: 0 <= j < gone ==> Fresh(limits, entries[j].stored, now))
    ensures var after := Inserted(limits, entries, key, result, now, later);
            if exists i :: 0 <= i < |kept| && kept[i].key == key
            then |after| == |kept| && forall i :: 0 <= i < |kept| ==>
                   after[i] == if kept[i].key == key then Entry(key, result, later) else kept[i]
            else after == kept + [Entry(key, result, later)]
  {
    kept := Evicted(limits, entries, now);
    gone := FirstOld(limits, entries, now);
    if gone == |entries| {
      gone := 0;
      assert forall e :: e in entries ==> Fresh(limits, e.stored, now);
    } else {
      assert entries[gone] in entries;
    }
    var i := Position(kept, key);
  }

  // ---- The cache ----

  class Cache {
    const limits: Limits
    var entries: seq<Entry>

    constructor (maxCount: nat, maxTime: int)
      ensures limits == Limits(maxCount, maxTime) && entries == []
    {
      limits := Limits(maxCount, maxTime);
      entries := [];
    }

    method Get(key: string, now: int) returns (r: Option<bool>)
      ensures r == Lookup(limits, entries, key, now)
    {
      var i := Position(entries, key);
      if i == |entries| {
        return None;
      }
      if Age(now, entries[i].stored) > limits.maxTime {
        return None;
      }
      r := Some(entries[i].result);
    }

    method Insert(key: string, result: bool, now: int, later: int)
      modifies this`entries
      ensures entries == Inserted(limits, old(entries), key, result, now, later)
    {
      if |entries| >= limits.maxCount {
        var i := FirstOld(limits, entries, now);
        if i < |entries| {
          entries := entries[..i] + entries[i + 1..];
        } else if entries != [] {
          entries := entries[1..];
        }
      }
      var i := Position(entries, key);
      var e := Entry(key, result, later);
      entries := if i < |entries| then entries[i := e] else entries + [e];
    }
  }
}
