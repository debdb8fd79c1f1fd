/**
 What include resolution means: it fails exactly when some walk along the
 includes enters a file twice or meets one that cannot be loaded, and what it
 returns reads like the last write of the depth-first order.
 */
module IncludeWalks {
  import opened Prelude
  import opened Ini
  import opened IniParser
  import opened Includes

  datatype File = File(path: Path, doc: IniDocument)

  function Outcome(fs: FileSystem, f: File, seen: set<Path>): Result<IniDocument, IncludeError>
    requires fs.Valid()
  {
    Resolve(fs, f.doc, f.path, seen)
  }

  // ---- Walks ----

  function AllNames(doc: IniDocument): seq<string> {
    Names(doc, "before") + Names(doc, "after")
  }

  predicate Loads(fs: FileSystem, name: string, f: File, to: File) {
    Load(fs, name, f.path) == Ok((to.path, to.doc))
  }

  /** `f` names a file that turns out to be `to`. */
  predicate Reaches(fs: FileSystem, f: File, to: File) {
    exists name <- AllNames(f.doc) :: Loads(fs, name, f, to)
  }

  predicate Fails(fs: FileSystem, f: File, e: IncludeError) {
    exists name <- AllNames(f.doc) :: Load(fs, name, f.path) == Err(e)
  }

  /** `f` names a file that cannot be found, read or parsed. */
  predicate Stuck(fs: FileSystem, f: File) {
    exists name <- AllNames(f.doc) :: Load(fs, name, f.path).Err?
  }

  predicate IsWalk(fs: FileSystem, w: seq<File>, start: File) {
    && w != []
    && w[0] == start
    && (|w| == 1 || (Reaches(fs, w[0], w[1]) && IsWalk(fs, w[1..], w[1])))
  }

  /** The walk enters a file of `seen`, or one that it entered before. */
  predicate Clash(fs: FileSystem, w: seq<File>, seen: set<Path>) {
    w != [] && (fs.Identity(w[0].path) in seen || Clash(fs, w[1..], seen + {fs.Identity(w[0].path)}))
  }

  ghost predicate Repeats(fs: FileSystem, w: seq<File>) {
    exists i, j :: 0 <= i < j < |w| && fs.Identity(w[i].path) == fs.Identity(w[j].path)
  }

  predicate Explains(fs: FileSystem, w: seq<File>, seen: set<Path>, e: IncludeError) {
    w != [] && if e.Cyclic? then Clash(fs, w, seen) else Fails(fs, w[|w| - 1], e)
  }

  lemma {:induction false} ClashIsRepeat(fs: FileSystem, w: seq<File>, seen: set<Path>)
    ensures Clash(fs, w, seen) <==>
            Repeats(fs, w) || exists j :: 0 <= j < |w| && fs.Identity(w[j].path) in seen
  {
    if w != [] {
      var id := fs.Identity(w[0].path);
      var rest := w[1..];
      ClashIsRepeat(fs, rest, seen + {id});
      if Clash(fs, rest, seen + {id}) {
        if Repeats(fs, rest) {
          var i, j :| 0 <= i < j < |rest| && fs.Identity(rest[i].path) == fs.Identity(rest[j].path);
          assert fs.Identity(w[i + 1].path) == fs.Identity(w[j + 1].path);
        } else {
          var j :| 0 <= j < |rest| && fs.Identity(rest[j].path) in seen + {id};
          assert rest[j] == w[j + 1];
        }
      }
      if Repeats(fs, w) {
        var i, j :| 0 <= i < j < |w| && fs.Identity(w[i].path) == fs.Identity(w[j].path);
        assert w[j] == rest[j - 1];
        if i > 0 {
          assert w[i] == rest[i - 1];
        }
      }
      if j :| 0 <= j < |w| && fs.Identity(w[j].path) in seen {
        if j > 0 {
          assert w[j] == rest[j - 1];
        }
      }
    }
  }

  // ---- An error is explained by a walk ----

  lemma {:induction false} Extend(fs: FileSystem, f: File, to: File, w: seq<File>, seen: set<Path>, e: IncludeError)
    requires w != []
    ensures Reaches(fs, f, to) && IsWalk(fs, w, to) ==> IsWalk(fs, [f] + w, f)
    ensures Explains(fs, w, seen + {fs.Identity(f.path)}, e) ==> Explains(fs, [f] + w, seen, e)
  {
    PrependWalk(f, w, [f] + w);
    assert ([f] + w)[|w|] == w[|w| - 1];
  }

  lemma {:induction false} PrependWalk(f: File, w: seq<File>, v: seq<File>)
    requires v == [f] + w && w != []
    ensures v[0] == f && v[1] == w[0] && v[1..] == w && |v| > 1
  {
  }

  lemma {:induction false} ErrorHasWalk(fs: FileSystem, f: File, seen: set<Path>) returns (w: seq<File>)
    requires fs.Valid() && Outcome(fs, f, seen).Err?
    ensures IsWalk(fs, w, f) && Explains(fs, w, seen, Outcome(fs, f, seen).error)
    decreases Unseen(fs, seen), if fs.Exists(f.path) then 0 else 2, 0
  {
    var id := fs.Identity(f.path);
    if id in seen {
      return [f];
    }
    EnteringShrinks(fs, f.path, seen);
    var before := ResolveAll(fs, Names(f.doc, "before"), f.path, seen + {id}, []);
    if before.Err? {
      w := ErrorInOne(fs, f, Names(f.doc, "before"), seen, []);
    } else {
      w := ErrorInOne(fs, f, Names(f.doc, "after"), seen, Merge(before.value, f.doc));
    }
  }

  lemma {:induction false} ErrorInOne(fs: FileSystem, f: File, names: seq<string>, seen: set<Path>, start: IniDocument)
    returns (w: seq<File>)
    requires fs.Valid() && fs.Identity(f.path) !in seen
    requires forall name <- names :: name in AllNames(f.doc)
    requires ResolveAll(fs, names, f.path, seen + {fs.Identity(f.path)}, start).Err?
    ensures IsWalk(fs, w, f)
    ensures Explains(fs, w, seen, ResolveAll(fs, names, f.path, seen + {fs.Identity(f.path)}, start).error)
    decreases Unseen(fs, seen + {fs.Identity(f.path)}), 1, |names|
  {
    var inner := seen + {fs.Identity(f.path)};
    var loaded := Load(fs, names[0], f.path);
    assert names[0] in AllNames(f.doc);
    if loaded.Err? {
      assert Fails(fs, f, loaded.error);
      return [f];
    }
    var to := File(loaded.value.0, loaded.value.1);
    assert Loads(fs, names[0], f, to);
    var r := Outcome(fs, to, inner);
    if r.Err? {
      w := ErrorHasWalk(fs, to, inner);
      Extend(fs, f, to, w, seen, r.error);
      w := [f] + w;
    } else {
      w := ErrorInOne(fs, f, names[1..], seen, Merge(start, r.value));
    }
  }

  // ---- Success rules out every bad walk ----

  lemma {:induction false} EachResolves(fs: FileSystem, names: seq<string>, i: nat, f: File, seen: set<Path>, start: IniDocument)
    requires fs.Valid() && i < |names|
    requires ResolveAll(fs, names, f.path, seen, start).Ok?
    ensures var l := Load(fs, names[i], f.path); l.Ok? && Resolve(fs, l.value.1, l.value.0, seen).Ok?
    decreases |names|
  {
    var (p, d) := Load(fs, names[0], f.path).value;
    if i > 0 {
      EachResolves(fs, names[1..], i - 1, f, seen, Merge(start, Resolve(fs, d, p, seen).value));
    }
  }

  lemma {:induction false} NamedResolves(fs: FileSystem, name: string, f: File, seen: set<Path>)
    requires fs.Valid() && Outcome(fs, f, seen).Ok? && name in AllNames(f.doc)
    ensures fs.Identity(f.path) !in seen
    ensures var l := Load(fs, name, f.path);
            l.Ok? && Outcome(fs, File(l.value.0, l.value.1), seen + {fs.Identity(f.path)}).Ok?
  {
    var inner := seen + {fs.Identity(f.path)};
    var before := ResolveAll(fs, Names(f.doc, "before"), f.path, inner, []);
    if name in Names(f.doc, "before") {
      var i :| 0 <= i < |Names(f.doc, "before")| && Names(f.doc, "before")[i] == name;
      EachResolves(fs, Names(f.doc, "before"), i, f, inner, []);
    } else {
      var i :| 0 <= i < |Names(f.doc, "after")| && Names(f.doc, "after")[i] == name;
      EachResolves(fs, Names(f.doc, "after"), i, f, inner, Merge(before.value, f.doc));
    }
  }

  lemma {:induction false} SuccessHasNoBadWalk(fs: FileSystem, f: File, seen: set<Path>, w: seq<File>)
    requires fs.Valid() && Outcome(fs, f, seen).Ok? && IsWalk(fs, w, f)
    ensures !Clash(fs, w, seen)
    ensures !Stuck(fs, w[|w| - 1])
    decreases |w|
  {
    NotEntered(fs, f, seen);
    if |w| == 1 {
      assert w[1..] == [];
      NotStuck(fs, f, seen);
    } else {
      var name :| name in AllNames(f.doc) && Loads(fs, name, f, w[1]);
      NamedResolves(fs, name, f, seen);
      SuccessHasNoBadWalk(fs, w[1], seen + {fs.Identity(f.path)}, w[1..]);
      LastOfRest(w);
    }
  }

  lemma {:induction false} LastOfRest(w: seq<File>)
    requires |w| > 1
    ensures w[1..][|w[1..]| - 1] == w[|w| - 1]
  {
  }

  lemma {:induction false} NotEntered(fs: FileSystem, f: File, seen: set<Path>)
    requires fs.Valid() && Outcome(fs, f, seen).Ok?
    ensures fs.Identity(f.path) !in seen
  {
  }

  lemma {:induction false} NotStuck(fs: FileSystem, f: File, seen: set<Path>)
    requires fs.Valid() && Outcome(fs, f, seen).Ok?
    ensures !Stuck(fs, f)
  {
    forall name | name in AllNames(f.doc)
      ensures Load(fs, name, f.path).Ok?
    {
      NamedResolves(fs, name, f, seen);
    }
  }

  lemma {:induction false} FailingIsStuck(fs: FileSystem, w: seq<File>, e: IncludeError)
    requires Explains(fs, w, {}, e) && !e.Cyclic?
    ensures Stuck(fs, w[|w| - 1])
  {
    var f := w[|w| - 1];
    var name :| name in AllNames(f.doc) && Load(fs, name, f.path) == Err(e);
    assert Load(fs, name, f.path).Err?;
  }

  /** A walk from `f` that comes back to a file it has entered. */
  ghost predicate Returns(fs: FileSystem, w: seq<File>, f: File) {
    IsWalk(fs, w, f) && Repeats(fs, w)
  }

  /** A walk from `f` to a file with an include that cannot be loaded. */
  ghost predicate GetsStuck(fs: FileSystem, w: seq<File>, f: File) {
    IsWalk(fs, w, f) && Stuck(fs, w[|w| - 1])
  }

  /** Resolution fails exactly when some walk from the root enters a file twice
      or ends at a file with an include that cannot be loaded. */
  lemma {:induction false} FailsIffBadWalk(fs: FileSystem, f: File)
    requires fs.Valid()
    ensures Outcome(fs, f, {}).Err? <==> exists w :: Returns(fs, w, f) || GetsStuck(fs, w, f)
  {
    if Outcome(fs, f, {}).Ok? {
      forall w
        ensures !Returns(fs, w, f) && !GetsStuck(fs, w, f)
      {
        if IsWalk(fs, w, f) {
          SuccessHasNoBadWalk(fs, f, {}, w);
          ClashIsRepeat(fs, w, {});
        }
      }
    } else {
      var w := BadWalk(fs, f);
    }
  }

  lemma {:induction false} BadWalk(fs: FileSystem, f: File) returns (w: seq<File>)
    requires fs.Valid() && Outcome(fs, f, {}).Err?
    ensures if Outcome(fs, f, {}).error.Cyclic? then Returns(fs, w, f) else GetsStuck(fs, w, f)
  {
    w := ErrorHasWalk(fs, f, {});
    ClashIsRepeat(fs, w, {});
    if !Outcome(fs, f, {}).error.Cyclic? {
      FailingIsStuck(fs, w, Outcome(fs, f, {}).error);
    }
  }

  /** When every file that can be reached loads, the only error is a cycle, and
      it is reported exactly when some walk comes back to a file it entered.
      Including one file along two walks is no error. */
  lemma {:induction false} CycleReportedIff(fs: FileSystem, f: File)
    requires fs.Valid() && !exists w :: GetsStuck(fs, w, f)
    ensures Outcome(fs, f, {}).Err? <==> exists w :: Returns(fs, w, f)
    ensures Outcome(fs, f, {}).Err? ==> Outcome(fs, f, {}).error.Cyclic?
  {
    FailsIffBadWalk(fs, f);
    if Outcome(fs, f, {}).Err? {
      var w := BadWalk(fs, f);
    }
  }

  // ---- What a reader sees ----

  datatype Write = Write(section: string, key: string, value: string)

  function SectionWrites(name: string, entries: seq<(string, string)>): seq<Write> {
    if entries == [] then []
    else [Write(name, entries[0].0, entries[0].1)] + SectionWrites(name, entries[1..])
  }

  function Writes(doc: IniDocument): seq<Write> {
    if doc == [] then [] else SectionWrites(doc[0].name, doc[0].entries) + Writes(doc[1..])
  }

  function LastWrite(ws: seq<Write>, section: string, key: string): Option<string> {
    if ws == [] then None
    else
      var w := ws[|ws| - 1];
      if w.section == section && w.key == key then Some(w.value) else LastWrite(ws[..|ws| - 1], section, key)
  }

  lemma {:induction false} LastWriteConcat(a: seq<Write>, b: seq<Write>, s: string, k: string)
    ensures LastWrite(a + b, s, k) == OrElse(LastWrite(b, s, k), LastWrite(a, s, k))
    decreases |b|
  {
    if b == [] {
      assert a + b == a;
    } else {
      assert (a + b)[..|a + b| - 1] == a + b[..|b| - 1];
      LastWriteConcat(a, b[..|b| - 1], s, k);
    }
  }

  /** The writes of the included files before `f`, of `f`, and of those after. */
  function Flat(fs: FileSystem, f: File, seen: set<Path>): seq<Write>
    requires fs.Valid()
    decreases Unseen(fs, seen), if fs.Exists(f.path) then 0 else 2, 0
  {
    var id := fs.Identity(f.path);
    if id in seen then []
    else
      EnteringShrinks(fs, f.path, seen);
      FlatAll(fs, Names(f.doc, "before"), f.path, seen + {id})
      + Writes(f.doc)
      + FlatAll(fs, Names(f.doc, "after"), f.path, seen + {id})
  }

  function FlatAll(fs: FileSystem, names: seq<string>, path: Path, seen: set<Path>): seq<Write>
    requires fs.Valid()
    decreases Unseen(fs, seen), 1, |names|
  {
    if names == [] then []
    else
      match Load(fs, names[0], path)
      case Err(_) => []
      case Ok((p, d)) => Flat(fs, File(p, d), seen) + FlatAll(fs, names[1..], path, seen)
  }

  lemma {:induction false} LookupAfterSet(entries: seq<(string, string)>, key: string, value: string, k: string)
    ensures Lookup(SetEntry(entries, key, value), k) == if k == key then Some(value) else Lookup(entries, k)
    decreases |entries|
  {
    var r := SetEntry(entries, key, value);
    if entries != [] && entries[0].0 != key {
      LookupAfterSet(entries[1..], key, value, k);
    }
  }

  lemma {:induction false} LookupAfterInsert(entries: seq<(string, string)>, more: seq<(string, string)>, name: string, k: string)
    ensures Lookup(InsertAll(entries, more), k) == OrElse(LastWrite(SectionWrites(name, more), name, k), Lookup(entries, k))
    decreases |more|
  {
    if more != [] {
      LookupAfterSet(entries, more[0].0, more[0].1, k);
      LookupAfterInsert(SetEntry(entries, more[0].0, more[0].1), more[1..], name, k);
      LastWriteConcat([Write(name, more[0].0, more[0].1)], SectionWrites(name, more[1..]), name, k);
    }
  }

  lemma {:induction false} OtherSection(name: string, entries: seq<(string, string)>, s: string, k: string)
    requires s != name
    ensures LastWrite(SectionWrites(name, entries), s, k) == None
    decreases |entries|
  {
    if entries != [] {
      OtherSection(name, entries[1..], s, k);
      LastWriteConcat([Write(name, entries[0].0, entries[0].1)], SectionWrites(name, entries[1..]), s, k);
    }
  }

  lemma {:induction false} FirstIndexUnique(doc: IniDocument, name: string, i: nat)
    requires i <= |doc| && (forall j :: 0 <= j < i ==> doc[j].name != name)
    requires i < |doc| ==> doc[i].name == name
    ensures SectionIndex(doc, name) == i
  {
  }

  lemma {:induction false} ValueAfterSection(doc: IniDocument, sec: IniSection, s: string, k: string)
    ensures Value(MergeSection(doc, sec), s, k)
         == OrElse(LastWrite(SectionWrites(sec.name, sec.entries), s, k), Value(doc, s, k))
  {
    var i := SectionIndex(doc, sec.name);
    var r := MergeSection(doc, sec);
    if s == sec.name {
      FirstIndexUnique(r, s, i);
      LookupAfterInsert(if i < |doc| then doc[i].entries else [], sec.entries, s, k);
    } else {
      OtherSection(sec.name, sec.entries, s, k);
      var j := SectionIndex(doc, s);
      if j < |doc| {
        FirstIndexUnique(r, s, j);
        assert r[j] == doc[j];
      } else {
        FirstIndexUnique(r, s, |r|);
      }
    }
  }

  /** Merging is last-wins: a reader sees the last write of `other`, or else
      what was there. */
  lemma {:induction false} MergeIsLastWins(doc: IniDocument, other: IniDocument, s: string, k: string)
    ensures Value(Merge(doc, other), s, k) == OrElse(LastWrite(Writes(other), s, k), Value(doc, s, k))
    decreases |other|
  {
    if other != [] {
      ValueAfterSection(doc, other[0], s, k);
      MergeIsLastWins(MergeSection(doc, other[0]), other[1..], s, k);
      LastWriteConcat(SectionWrites(other[0].name, other[0].entries), Writes(other[1..]), s, k);
    }
  }

  // ---- Merged documents name nothing twice ----

  predicate DistinctKeys(entries: seq<(string, string)>) {
    entries == [] || (Lookup(entries[1..], entries[0].0).None? && DistinctKeys(entries[1..]))
  }

  predicate Distinct(doc: IniDocument) {
    && (forall i, j :: 0 <= i < j < |doc| ==> doc[i].name != doc[j].name)
    && (forall i :: 0 <= i < |doc| ==> DistinctKeys(doc[i].entries))
  }

  lemma {:induction false} SetKeepsDistinct(entries: seq<(string, string)>, key: string, value: string)
    requires DistinctKeys(entries)
    ensures DistinctKeys(SetEntry(entries, key, value))
    decreases |entries|
  {
    if entries != [] && entries[0].0 != key {
      SetKeepsDistinct(entries[1..], key, value);
      LookupAfterSet(entries[1..], key, value, entries[0].0);
    }
  }

  lemma {:induction false} InsertKeepsDistinct(entries: seq<(string, string)>, more: seq<(string, string)>)
    requires DistinctKeys(entries)
    ensures DistinctKeys(InsertAll(entries, more))
    decreases |more|
  {
    if more != [] {
      SetKeepsDistinct(entries, more[0].0, more[0].1);
      InsertKeepsDistinct(SetEntry(entries, more[0].0, more[0].1), more[1..]);
    }
  }

  lemma {:induction false} MergeKeepsDistinct(doc: IniDocument, other: IniDocument)
    requires Distinct(doc)
    ensures Distinct(Merge(doc, other))
    decreases |other|
  {
    if other != [] {
      var i := SectionIndex(doc, other[0].name);
      InsertKeepsDistinct(if i < |doc| then doc[i].entries else [], other[0].entries);
      MergeKeepsDistinct(MergeSection(doc, other[0]), other[1..]);
    }
  }

  lemma {:induction false} LookupIsLastWrite(name: string, entries: seq<(string, string)>, k: string)
    requires DistinctKeys(entries)
    ensures Lookup(entries, k) == LastWrite(SectionWrites(name, entries), name, k)
    decreases |entries|
  {
    if entries != [] {
      LookupIsLastWrite(name, entries[1..], k);
      LastWriteConcat([Write(name, entries[0].0, entries[0].1)], SectionWrites(name, entries[1..]), name, k);
    }
  }

  lemma {:induction false} ValueIsLastWrite(doc: IniDocument, s: string, k: string)
    requires Distinct(doc)
    ensures Value(doc, s, k) == LastWrite(Writes(doc), s, k)
    decreases |doc|
  {
    if doc != [] {
      var sec, rest := doc[0], doc[1..];
      LastWriteConcat(SectionWrites(sec.name, sec.entries), Writes(rest), s, k);
      ValueIsLastWrite(rest, s, k);
      if s == sec.name {
        LookupIsLastWrite(s, sec.entries, k);
        FirstIndexUnique(rest, s, |rest|);
      } else {
        OtherSection(sec.name, sec.entries, s, k);
      }
    }
  }

  lemma {:induction false} IncludesAreDistinct(fs: FileSystem, names: seq<string>, path: Path, seen: set<Path>, start: IniDocument)
    requires fs.Valid() && Distinct(start) && ResolveAll(fs, names, path, seen, start).Ok?
    ensures Distinct(ResolveAll(fs, names, path, seen, start).value)
    decreases |names|
  {
    if names != [] {
      var (p, d) := Load(fs, names[0], path).value;
      var included := Resolve(fs, d, p, seen).value;
      MergeKeepsDistinct(start, included);
      IncludesAreDistinct(fs, names[1..], path, seen, Merge(start, included));
    }
  }

  lemma {:induction false} ResolvedIsDistinct(fs: FileSystem, f: File, seen: set<Path>)
    requires fs.Valid() && Outcome(fs, f, seen).Ok?
    ensures Distinct(Outcome(fs, f, seen).value)
  {
    var inner := seen + {fs.Identity(f.path)};
    var first := ResolveAll(fs, Names(f.doc, "before"), f.path, inner, []).value;
    IncludesAreDistinct(fs, Names(f.doc, "before"), f.path, inner, []);
    MergeKeepsDistinct(first, f.doc);
    IncludesAreDistinct(fs, Names(f.doc, "after"), f.path, inner, Merge(first, f.doc));
  }

  // ---- The depth-first order ----

  lemma {:induction false} IncludesReadLikeFlat(
    fs: FileSystem, names: seq<string>, path: Path, seen: set<Path>, start: IniDocument, s: string, k: string)
    requires fs.Valid() && ResolveAll(fs, names, path, seen, start).Ok?
    ensures Value(ResolveAll(fs, names, path, seen, start).value, s, k)
         == OrElse(LastWrite(FlatAll(fs, names, path, seen), s, k), Value(start, s, k))
    decreases Unseen(fs, seen), 1, |names|
  {
    if names != [] {
      var (p, d) := Load(fs, names[0], path).value;
      var included := Resolve(fs, d, p, seen).value;
      var more := Merge(start, included);
      ReadsLikeFlat(fs, File(p, d), seen, s, k);
      MergeIsLastWins(start, included, s, k);
      ResolvedIsDistinct(fs, File(p, d), seen);
      ValueIsLastWrite(included, s, k);
      IncludesReadLikeFlat(fs, names[1..], path, seen, more, s, k);
      LastWriteConcat(Flat(fs, File(p, d), seen), FlatAll(fs, names[1..], path, seen), s, k);
    }
  }

  /** Every lookup in a resolved document gives the last write to that entry in
      the depth-first order of the files, each between its two include lists. */
  lemma {:induction false} ReadsLikeFlat(fs: FileSystem, f: File, seen: set<Path>, s: string, k: string)
    requires fs.Valid() && Outcome(fs, f, seen).Ok?
    ensures Value(Outcome(fs, f, seen).value, s, k) == LastWrite(Flat(fs, f, seen), s, k)
    decreases Unseen(fs, seen), if fs.Exists(f.path) then 0 else 2, 0
  {
    EnteringShrinks(fs, f.path, seen);
    var inner := seen + {fs.Identity(f.path)};
    var before, after := Names(f.doc, "before"), Names(f.doc, "after");
    var first := ResolvesInTurn(fs, f, seen, inner);
    IncludesReadLikeFlat(fs, before, f.path, inner, [], s, k);
    IncludesReadLikeFlat(fs, after, f.path, inner, Merge(first, f.doc), s, k);
    MergedReadsLikeFlat(first, f.doc, FlatAll(fs, before, f.path, inner), FlatAll(fs, after, f.path, inner), s, k);
  }

  lemma {:induction false} MergedReadsLikeFlat(first: IniDocument, doc: IniDocument, before: seq<Write>, after: seq<Write>,
                                               s: string, k: string)
    requires Value(first, s, k) == OrElse(LastWrite(before, s, k), Value([], s, k))
    ensures LastWrite(before + Writes(doc) + after, s, k)
         == OrElse(LastWrite(after, s, k), Value(Merge(first, doc), s, k))
  {
    MergeIsLastWins(first, doc, s, k);
    LastOfThree(before, Writes(doc), after, s, k);
  }

  lemma {:induction false} ResolvesInTurn(fs: FileSystem, f: File, seen: set<Path>, inner: set<Path>)
    returns (first: IniDocument)
    requires fs.Valid() && Outcome(fs, f, seen).Ok? && inner == seen + {fs.Identity(f.path)}
    ensures fs.Identity(f.path) !in seen
    ensures ResolveAll(fs, Names(f.doc, "before"), f.path, inner, []) == Ok(first)
    ensures Outcome(fs, f, seen) == ResolveAll(fs, Names(f.doc, "after"), f.path, inner, Merge(first, f.doc))
    ensures Flat(fs, f, seen) == FlatAll(fs, Names(f.doc, "before"), f.path, inner) + Writes(f.doc)
                                 + FlatAll(fs, Names(f.doc, "after"), f.path, inner)
  {
    EnteringShrinks(fs, f.path, seen);
    first := ResolveAll(fs, Names(f.doc, "before"), f.path, inner, []).value;
  }

  lemma {:induction false} LastOfThree(a: seq<Write>, b: seq<Write>, c: seq<Write>, s: string, k: string)
    ensures LastWrite(a + b + c, s, k) == OrElse(LastWrite(c, s, k), OrElse(LastWrite(b, s, k), LastWrite(a, s, k)))
  {
    LastWriteConcat(a, b, s, k);
    LastWriteConcat(a + b, c, s, k);
  }
}
