/** Which files an include list names and where they are looked for. */
module IncludeNames {
  import opened Prelude
  import opened Text
  import opened Ini
  import opened IniParser
  import opened Includes

  // ---- The names in a list ----

  /** White space and commas stand between names. */
  predicate IsBetween(c: char) {
    c == ',' || IsWhitespace(c)
  }

  /** A name after some white space and commas. */
  datatype Item = Item(gap: string, name: string) {
    predicate Valid() {
      (forall c <- gap :: IsBetween(c)) && name != "" && forall c <- name :: !IsBetween(c)
    }
  }

  predicate ValidList(items: seq<Item>) {
    forall i :: 0 <= i < |items| ==> items[i].Valid() && (i > 0 ==> items[i].gap != "")
  }

  function Written(items: seq<Item>): string {
    if items == [] then "" else items[0].gap + (items[0].name + Written(items[1..]))
  }

  function NamesOf(items: seq<Item>): seq<string> {
    if items == [] then [] else [items[0].name] + NamesOf(items[1..])
  }

  function Closed(part: string): seq<string> {
    if part == "" then [] else [part]
  }

  lemma {:induction false} PartsGap(gap: string, s: string, part: string)
    requires (forall c <- gap :: IsSeparator(c)) && gap != ""
    ensures Parts(gap + s, part) == Closed(part) + Parts(s, "")
    decreases |gap|
  {
    assert gap[0] in gap && (gap + s)[1..] == gap[1..] + s;
    if |gap| == 1 {
      assert gap[1..] + s == s;
    } else {
      PartsGap(gap[1..], s, "");
    }
  }

  lemma {:induction false} PartsWord(word: string, s: string, part: string)
    requires forall c <- word :: !IsSeparator(c)
    ensures Parts(word + s, part) == Parts(s, part + word)
    decreases |word|
  {
    if word == "" {
      assert word + s == s && part + word == part;
    } else {
      assert word[0] in word && (word + s)[1..] == word[1..] + s;
      PartsWord(word[1..], s, part + [word[0]]);
      assert part + [word[0]] + word[1..] == part + word;
    }
  }

  /** The parts of a written list are its names in order. */
  lemma {:induction false} PartsOfList(items: seq<Item>, part: string)
    requires ValidList(items) && (part == "" || items == [] || items[0].gap != "")
    ensures Parts(Written(items), part) == Closed(part) + NamesOf(items)
    decreases |items|
  {
    if items != [] {
      var gap, name, rest := items[0].gap, items[0].name, Written(items[1..]);
      if gap != "" {
        PartsGap(gap, name + rest, part);
      } else {
        assert gap + (name + rest) == name + rest;
      }
      PartsWord(name, rest, "");
      assert "" + name == name;
      PartsOfList(items[1..], name);
    }
  }

  // ---- Where they are looked for ----

  /** Next to the including file, then in each search directory. */
  function Candidates(fs: FileSystem, name: string, from: Path): seq<Path> {
    (match fs.parent(from) case Some(base) => [fs.join(base, name)] case None => [])
    + seq(|fs.searchDirs|, i requires 0 <= i < |fs.searchDirs| => fs.join(fs.searchDirs[i], name))
  }

  ghost predicate IsFirst(fs: FileSystem, candidates: seq<Path>, r: Option<Path>) {
    match r
    case None => forall i :: 0 <= i < |candidates| ==> !fs.Exists(candidates[i])
    case Some(p) =>
      exists i :: 0 <= i < |candidates| && candidates[i] == p && fs.Exists(p)
        && forall j :: 0 <= j < i ==> !fs.Exists(candidates[j])
  }

  lemma {:induction false} SearchFindsFirst(fs: FileSystem, dirs: seq<Path>, name: string, candidates: seq<Path>)
    requires |candidates| == |dirs| && forall i :: 0 <= i < |dirs| ==> candidates[i] == fs.join(dirs[i], name)
    ensures IsFirst(fs, candidates, FirstExisting(fs, dirs, name))
    decreases |dirs|
  {
    if dirs != [] {
      SearchFindsFirst(fs, dirs[1..], name, candidates[1..]);
      if fs.Exists(candidates[0]) {
        assert FirstExisting(fs, dirs, name) == Some(candidates[0]);
      } else {
        LaterFirst(fs, candidates, FirstExisting(fs, dirs[1..], name));
      }
    }
  }

  lemma {:induction false} LaterFirst(fs: FileSystem, candidates: seq<Path>, r: Option<Path>)
    requires candidates != [] && !fs.Exists(candidates[0]) && IsFirst(fs, candidates[1..], r)
    ensures IsFirst(fs, candidates, r)
  {
    if r.Some? {
      var i :| 0 <= i < |candidates| - 1 && candidates[1..][i] == r.value
        && forall j :: 0 <= j < i ==> !fs.Exists(candidates[1..][j]);
      assert candidates[i + 1] == r.value;
      forall j | 0 <= j < i + 1
        ensures !fs.Exists(candidates[j])
      {
        assert j > 0 ==> candidates[j] == candidates[1..][j - 1];
      }
    } else {
      forall j | 0 <= j < |candidates|
        ensures !fs.Exists(candidates[j])
      {
        assert j > 0 ==> candidates[j] == candidates[1..][j - 1];
      }
    }
  }

  /** An included file is the first candidate that exists. */
  lemma {:induction false} LocateFindsFirst(fs: FileSystem, name: string, from: Path)
    ensures IsFirst(fs, Candidates(fs, name, from), Locate(fs, name, from))
  {
    var dirs := fs.searchDirs;
    var searched := seq(|dirs|, i requires 0 <= i < |dirs| => fs.join(dirs[i], name));
    SearchFindsFirst(fs, dirs, name, searched);
    var all := Candidates(fs, name, from);
    match fs.parent(from)
    case None =>
      assert all == searched;
    case Some(base) =>
      assert all == [fs.join(base, name)] + searched && all[1..] == searched;
      if fs.Exists(all[0]) {
        assert Locate(fs, name, from) == Some(all[0]);
      } else {
        LaterFirst(fs, all, FirstExisting(fs, dirs, name));
      }
  }

  /** An included file is an error when no candidate exists, when the first that
      exists cannot be read, and when its text is malformed. */
  lemma {:induction false} LoadIs(fs: FileSystem, name: string, from: Path) returns (first: Option<Path>)
    ensures IsFirst(fs, Candidates(fs, name, from), first)
    ensures match first
            case None => Load(fs, name, from) == Err(NotFound(name))
            case Some(p) =>
              var file := fs.canonical(p).value;
              if file !in fs.texts || fs.texts[file].None? then Load(fs, name, from) == Err(Unreadable(p))
              else
                match Parse(fs.texts[file].value)
                case Err(e) => Load(fs, name, from) == Err(Malformed(p, e))
                case Ok(doc) => Load(fs, name, from) == Ok((p, doc))
  {
    first := Locate(fs, name, from);
    LocateFindsFirst(fs, name, from);
  }

  // ---- Which sections list them ----

  /** Every section called INCLUDES counts, not only the first. */
  lemma {:induction false} NamedIff(doc: IniDocument, key: string, name: string)
    ensures name in Names(doc, key) <==>
            exists i :: 0 <= i < |doc| && doc[i].name == "INCLUDES" && doc[i].Get(key).Some?
                        && name in Parts(doc[i].Get(key).value, "")
    decreases |doc|
  {
    if doc != [] {
      NamedIff(doc[1..], key, name);
      if i :| 0 <= i < |doc| && doc[i].name == "INCLUDES" && doc[i].Get(key).Some?
              && name in Parts(doc[i].Get(key).value, "") {
        assert i > 0 ==> doc[1..][i - 1] == doc[i];
      }
      if name in Names(doc[1..], key) {
        var i :| 0 <= i < |doc[1..]| && doc[1..][i].name == "INCLUDES" && doc[1..][i].Get(key).Some?
                 && name in Parts(doc[1..][i].Get(key).value, "");
        assert doc[i + 1] == doc[1..][i];
      }
    }
  }

  /** The lists count in the order of the sections. */
  lemma {:induction false} NamesInOrder(a: IniDocument, sec: IniSection, b: IniDocument, key: string)
    ensures Names(a + [sec] + b, key) ==
            Names(a, key) + (if sec.name == "INCLUDES" && sec.Get(key).Some? then Parts(sec.Get(key).value, "") else [])
            + Names(b, key)
    decreases |a|
  {
    var all := a + [sec] + b;
    if a == [] {
      assert all[0] == sec && all[1..] == b;
    } else {
      assert all[0] == a[0] && all[1..] == a[1..] + [sec] + b;
      NamesInOrder(a[1..], sec, b, key);
    }
  }
}
