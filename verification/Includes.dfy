/**
 `before =` and `after =` includes: a recursive walk over files that merges the
 included documents around the including one, last write wins.
 */
module Includes {
  import opened Prelude
  import opened Text
  import opened Ini
  import opened IniParser

  type Path = string

  /** The file system. Every file has one canonical path and, when it can be
      read, a text; `canonical` resolves a path to it, if the path exists. */
  datatype FileSystem = FileSystem(
    texts: map<Path, Option<string>>,
    canonical: Path -> Option<Path>,
    parent: Path -> Option<Path>,
    join: (Path, string) -> Path,
    searchDirs: seq<Path>)
  {
    predicate Exists(p: Path) {
      canonical(p).Some?
    }

    ghost predicate Valid() {
      forall p :: Exists(p) ==> canonical(p).value in texts
    }

    /** What a file is known by; a path that does not exist stands for itself. */
    function Identity(p: Path): Path {
      match canonical(p)
      case Some(c) => c
      case None => p
    }
  }

  datatype IncludeError =
    | Cyclic(path: Path)
    | NotFound(name: string)
    | Unreadable(path: Path)
    | Malformed(path: Path, error: ParseError)

  // ---- Merging ----

  function InsertAll(entries: seq<(string, string)>, more: seq<(string, string)>): seq<(string, string)>
    decreases |more|
  {
    if more == [] then entries else InsertAll(SetEntry(entries, more[0].0, more[0].1), more[1..])
  }

  /** One section: into the first section of its name, or a new one at the end. */
  function MergeSection(doc: IniDocument, sec: IniSection): IniDocument {
    var i := SectionIndex(doc, sec.name);
    if i < |doc| then doc[i := IniSection(sec.name, InsertAll(doc[i].entries, sec.entries))]
    else doc + [IniSection(sec.name, InsertAll([], sec.entries))]
  }

  function Merge(doc: IniDocument, other: IniDocument): IniDocument
    decreases |other|
  {
    if other == [] then doc else Merge(MergeSection(doc, other[0]), other[1..])
  }

  // ---- Finding included files ----

  predicate IsSeparator(c: char) {
    IsWhitespace(c) || c == ','
  }

  /** The non-empty parts between separators. */
  function Parts(s: string, part: string): seq<string> {
    if s == "" then (if part == "" then [] else [part])
    else if IsSeparator(s[0]) then (if part == "" then [] else [part]) + Parts(s[1..], "")
    else Parts(s[1..], part + [s[0]])
  }

  /** The names under `key` of all sections called INCLUDES. */
  function Names(doc: IniDocument, key: string): seq<string> {
    if doc == [] then []
    else
      (if doc[0].name == "INCLUDES" && doc[0].Get(key).Some? then Parts(doc[0].Get(key).value, "") else [])
      + Names(doc[1..], key)
  }

  function FirstExisting(fs: FileSystem, dirs: seq<Path>, name: string): Option<Path> {
    if dirs == [] then None
    else if fs.Exists(fs.join(dirs[0], name)) then Some(fs.join(dirs[0], name))
    else FirstExisting(fs, dirs[1..], name)
  }

  /** First next to the including file, then in the search directories. */
  function Locate(fs: FileSystem, name: string, from: Path): (r: Option<Path>)
    ensures r.Some? ==> fs.Exists(r.value)
  {
    FirstExistingExists(fs, fs.searchDirs, name);
    match fs.parent(from)
    case None => FirstExisting(fs, fs.searchDirs, name)
    case Some(base) =>
      if fs.Exists(fs.join(base, name)) then Some(fs.join(base, name)) else FirstExisting(fs, fs.searchDirs, name)
  }

  lemma {:induction false} FirstExistingExists(fs: FileSystem, dirs: seq<Path>, name: string)
    ensures var r := FirstExisting(fs, dirs, name); r.Some? ==> fs.Exists(r.value)
  {
    if dirs != [] {
      FirstExistingExists(fs, dirs[1..], name);
    }
  }

  function ParseFile(fs: FileSystem, p: Path): Result<IniDocument, IncludeError> {
    var c := fs.Identity(p);
    if c !in fs.texts || fs.texts[c].None? then Err(Unreadable(p))
    else
      match Parse(fs.texts[c].value)
      case Err(e) => Err(Malformed(p, e))
      case Ok(doc) => Ok(doc)
  }

  /** An included file and its document. */
  function Load(fs: FileSystem, name: string, from: Path): (r: Result<(Path, IniDocument), IncludeError>)
    ensures r.Ok? ==> fs.Exists(r.value.0) && ParseFile(fs, r.value.0) == Ok(r.value.1)
  {
    match Locate(fs, name, from)
    case None => Err(NotFound(name))
    case Some(p) =>
      match ParseFile(fs, p)
      case Err(e) => Err(e)
      case Ok(doc) => Ok((p, doc))
  }

  // ---- Resolution as a function ----

  /** How many files can still be entered. */
  ghost function Unseen(fs: FileSystem, seen: set<Path>): nat {
    |fs.texts.Keys - seen|
  }

  lemma EnteringShrinks(fs: FileSystem, path: Path, seen: set<Path>)
    requires fs.Valid() && fs.Identity(path) !in seen
    ensures Unseen(fs, seen + {fs.Identity(path)}) <= Unseen(fs, seen)
    ensures fs.Exists(path) ==> Unseen(fs, seen + {fs.Identity(path)}) < Unseen(fs, seen)
  {
    var id := fs.Identity(path);
    assert fs.texts.Keys - (seen + {id}) == (fs.texts.Keys - seen) - {id};
    if fs.Exists(path) {
      assert id in fs.texts.Keys - seen;
    }
  }

  function Resolve(fs: FileSystem, doc: IniDocument, path: Path, seen: set<Path>): Result<IniDocument, IncludeError>
    requires fs.Valid()
    decreases Unseen(fs, seen), if fs.Exists(path) then 0 else 2, 0
  {
    var id := fs.Identity(path);
    if id in seen then Err(Cyclic(id))
    else
      EnteringShrinks(fs, path, seen);
      var before :- ResolveAll(fs, Names(doc, "before"), path, seen + {id}, []);
      ResolveAll(fs, Names(doc, "after"), path, seen + {id}, Merge(before, doc))
  }

  function ResolveAll(fs: FileSystem, names: seq<string>, path: Path, seen: set<Path>, result: IniDocument)
    : Result<IniDocument, IncludeError>
    requires fs.Valid()
    decreases Unseen(fs, seen), 1, |names|
  {
    if names == [] then Ok(result)
    else
      var (p, d) :- Load(fs, names[0], path);
      var included :- Resolve(fs, d, p, seen);
      ResolveAll(fs, names[1..], path, seen, Merge(result, included))
  }

  // ---- Resolution as written ----

  method MergeInto(doc: IniDocument, other: IniDocument) returns (result: IniDocument)
    ensures result == Merge(doc, other)
  {
    result := doc;
    var sections := other;
    while sections != []
      invariant Merge(doc, other) == Merge(result, sections)
      decreases |sections|
    {
      var sec := sections[0];
      var i := SectionIndex(result, sec.name);
      var entries := if i < |result| then result[i].entries else [];
      var rest := sec.entries;
      while rest != []
        invariant InsertAll(entries, rest) == InsertAll(if i < |result| then result[i].entries else [], sec.entries)
        decreases |rest|
      {
        entries := SetEntry(entries, rest[0].0, rest[0].1);
        rest := rest[1..];
      }
      result := if i < |result| then result[i := IniSection(sec.name, entries)] else result + [IniSection(sec.name, entries)];
      sections := sections[1..];
    }
  }

  /** `seen` holds the files being resolved; on success it is left as it was. */
  method ResolveIncludes(fs: FileSystem, doc: IniDocument, path: Path, seen: set<Path>)
    returns (r: Result<IniDocument, IncludeError>, seen': set<Path>)
    requires fs.Valid()
    ensures r == Resolve(fs, doc, path, seen)
    ensures r.Ok? ==> seen' == seen
    decreases Unseen(fs, seen), if fs.Exists(path) then 0 else 2, 0
  {
    seen' := seen;
    var id := fs.Identity(path);
    if id in seen' {
      return Err(Cyclic(id)), seen';
    }
    EnteringShrinks(fs, path, seen);
    seen' := seen' + {id};
    var before;
    before, seen' := IncludeEach(fs, Names(doc, "before"), path, seen', []);
    if before.Err? {
      return before, seen';
    }
    var merged := MergeInto(before.value, doc);
    r, seen' := IncludeEach(fs, Names(doc, "after"), path, seen', merged);
    if r.Err? {
      return;
    }
    seen' := seen' - {id};
  }

  method IncludeEach(fs: FileSystem, names: seq<string>, path: Path, seen: set<Path>, start: IniDocument)
    returns (r: Result<IniDocument, IncludeError>, seen': set<Path>)
    requires fs.Valid()
    ensures r == ResolveAll(fs, names, path, seen, start)
    ensures r.Ok? ==> seen' == seen
    decreases Unseen(fs, seen), 1, |names|
  {
    seen' := seen;
    var result, left := start, names;
    while left != []
      invariant seen' == seen && |left| <= |names|
      invariant ResolveAll(fs, names, path, seen, start) == ResolveAll(fs, left, path, seen, result)
      decreases |left|
    {
      var loaded := Load(fs, left[0], path);
      if loaded.Err? {
        return Err(loaded.error), seen';
      }
      var included;
      included, seen' := ResolveIncludes(fs, loaded.value.1, loaded.value.0, seen');
      if included.Err? {
        return included, seen';
      }
      result := MergeInto(result, included.value);
      left := left[1..];
    }
    r := Ok(result);
  }
}
