/**
 Printing and parsing INI documents. The canonical documents are exactly those
 that parsing can produce, and parsing what is printed gives them back.
 */
module IniRoundTrip {
  import opened Prelude
  import opened Text
  import opened Ini
  import opened IniParser

  // ---- Canonical documents ----

  /** A line of text that parsing leaves as it is. */
  ghost predicate GoodText(s: string) {
    s != "" && Trimmed(s) && '\n' !in s && CommentFree(s)
  }

  function JoinFrom(first: string, lines: seq<string>): string
    decreases |lines|
  {
    if lines == [] then first else JoinFrom(first + "\n" + lines[0], lines[1..])
  }

  function Join(lines: seq<string>): string {
    if lines == [] then "" else JoinFrom(lines[0], lines[1..])
  }

  /** A line of a value; only its first line may look like a comment line. */
  ghost predicate GoodLine(s: string, i: int) {
    GoodText(s) && (i > 0 ==> s[0] != '#')
  }

  ghost predicate CanonicalValue(v: string) {
    && v == Join(Lines(v))
    && forall i {:trigger GoodLine(Lines(v)[i], i)} :: 0 <= i < |Lines(v)| ==> GoodLine(Lines(v)[i], i)
  }

  ghost predicate CanonicalKey(k: string) {
    Trimmed(k) && '\n' !in k && '=' !in k && CommentFree(k) && (k != "" ==> k[0] != '[' && k[0] != '#')
  }

  ghost predicate CanonicalName(n: string) {
    Trimmed(n) && '\n' !in n && ']' !in n && CommentFree(n)
  }

  ghost predicate Absent(entries: seq<(string, string)>, key: string) {
    forall i {:trigger entries[i].0} :: 0 <= i < |entries| ==> entries[i].0 != key
  }

  ghost predicate CanonicalEntry(entry: (string, string)) {
    CanonicalKey(entry.0) && CanonicalValue(entry.1)
  }

  ghost predicate CanonicalEntries(entries: seq<(string, string)>) {
    && (forall i {:trigger CanonicalEntry(entries[i])} :: 0 <= i < |entries| ==> CanonicalEntry(entries[i]))
    && forall i {:trigger Absent(entries[..i], entries[i].0)} :: 0 <= i < |entries| ==> Absent(entries[..i], entries[i].0)
  }

  ghost predicate CanonicalSection(sec: IniSection) {
    CanonicalName(sec.name) && CanonicalEntries(sec.entries)
  }

  ghost predicate Canonical(doc: IniDocument) {
    forall i {:trigger CanonicalSection(doc[i])} :: 0 <= i < |doc| ==> CanonicalSection(doc[i])
  }

  // ---- Printing ----

  predicate IsIndent(s: string) {
    s != "" && forall i :: 0 <= i < |s| ==> IsBlank(s[i])
  }

  /** The lines of a value after its first one, indented. */
  function Indented(indent: string, lines: seq<string>): seq<string> {
    seq(|lines|, i requires 0 <= i < |lines| => indent + lines[i])
  }

  function EntryLines(indent: string, entry: (string, string)): seq<string> {
    var lines := Lines(entry.1);
    if lines == [] then [entry.0 + "=" + ""]
    else [entry.0 + "=" + lines[0]] + Indented(indent, lines[1..])
  }

  function EntriesLines(indent: string, entries: seq<(string, string)>): seq<string>
    decreases |entries|
  {
    if entries == [] then [] else EntryLines(indent, entries[0]) + EntriesLines(indent, entries[1..])
  }

  function DocLines(indent: string, doc: IniDocument): seq<string>
    decreases |doc|
  {
    if doc == [] then []
    else SectionLines(indent, doc[0]) + DocLines(indent, doc[1..])
  }

  function SectionLines(indent: string, sec: IniSection): seq<string> {
    ["[" + sec.name + "]"] + EntriesLines(indent, sec.entries)
  }

  function Unlines(lines: seq<string>): string
    decreases |lines|
  {
    if lines == [] then "" else lines[0] + ['\n'] + Unlines(lines[1..])
  }

  /** Prints a document; continuation lines start with `indent`. */
  function Print(indent: string, doc: IniDocument): string {
    Unlines(DocLines(indent, doc))
  }

  // ---- Text ----

  lemma {:induction false} FirstLine(line: string, rest: string)
    requires '\n' !in line
    ensures Lines(line + ['\n'] + rest) == [line] + Lines(rest)
  {
    var all := line + ['\n'] + rest;
    FindUnique(line, '\n', rest);
    Advance(all, line, ['\n'] + rest);
  }

  lemma {:induction false} LinesOfUnlines(lines: seq<string>)
    requires forall i :: 0 <= i < |lines| ==> '\n' !in lines[i]
    ensures Lines(Unlines(lines)) == lines
    decreases |lines|
  {
    if lines != [] {
      FirstLine(lines[0], Unlines(lines[1..]));
      LinesOfUnlines(lines[1..]);
    }
  }

  lemma {:induction false} StripNothing(s: string)
    requires CommentFree(s)
    ensures StripInlineComment(s) == s
  {
  }

  lemma {:induction false} KeepsTrimmed(s: string)
    requires Trimmed(s)
    ensures Trim(s) == s && TrimReturns(s) == s
  {
  }

  lemma {:induction false} TrimIndent(indent: string, s: string)
    requires (forall i :: 0 <= i < |indent| ==> IsBlank(indent[i])) && Trimmed(s) && s != ""
    ensures TrimStart(indent + s) == s
    decreases |indent|
  {
    if indent == "" {
      assert indent + s == s;
    } else {
      assert (indent + s)[0] == indent[0] && (indent + s)[1..] == indent[1..] + s;
      TrimIndent(indent[1..], s);
    }
  }

  // ---- Entries ----

  lemma {:induction false} AbsentTail(entries: seq<(string, string)>, key: string)
    requires entries != [] && Absent(entries, key)
    ensures entries[0].0 != key && Absent(entries[1..], key)
  {
    forall i | 0 <= i < |entries| - 1
      ensures entries[1..][i].0 != key
    {
      assert entries[i + 1].0 != key;
    }
  }

  lemma {:induction false} SetNew(entries: seq<(string, string)>, key: string, value: string)
    requires Absent(entries, key)
    ensures SetEntry(entries, key, value) == entries + [(key, value)]
    ensures Lookup(entries, key) == None
  {
    if entries != [] {
      AbsentTail(entries, key);
      SetNew(entries[1..], key, value);
      assert [entries[0]] + (entries[1..] + [(key, value)]) == entries + [(key, value)];
    }
  }

  lemma {:induction false} SetLast(entries: seq<(string, string)>, key: string, before: string, value: string)
    requires Absent(entries, key)
    ensures SetEntry(entries + [(key, before)], key, value) == entries + [(key, value)]
    ensures Lookup(entries + [(key, before)], key) == Some(before)
  {
    if entries != [] {
      AbsentTail(entries, key);
      assert (entries + [(key, before)])[1..] == entries[1..] + [(key, before)];
      SetLast(entries[1..], key, before, value);
    }
  }

  // ---- One printed line ----

  /** The state inside a section that has the entries so far. */
  function Inside(prior: IniDocument, name: string, entries: seq<(string, string)>, current: Option<string>): State {
    State(prior + [IniSection(name, entries)], current)
  }

  lemma {:induction false} ReadsGoodLine(line: string)
    requires Trimmed(line) && CommentFree(line) && line != "" && line[0] != '#'
    ensures ReadLine(line) == Some((false, line))
  {
    KeepsTrimmed(line);
    StripNothing(line);
  }

  lemma {:induction false} HeaderText(name: string)
    requires CanonicalName(name)
    ensures var line := "[" + name + "]";
            Trimmed(line) && CommentFree(line) && Find(line, ']') == Some(|name| + 1) && line[1..|name| + 1] == name
  {
    var line := "[" + name + "]";
    forall i | 0 <= i < |line|
      ensures !IsComment(line, i)
    {
      if 0 < i - 1 < |name| {
        assert !IsComment(name, i - 1);
      }
    }
    assert line == ("[" + name) + [']'] + "";
    FindUnique("[" + name, ']', "");
  }

  lemma {:induction false} InterpretHeader(st: State, text: string, name: string, lineNo: nat)
    requires text != "" && text[0] == '[' && Find(text, ']') == Some(|name| + 1)
    requires text[1..|name| + 1] == name && Trimmed(name)
    ensures Interpret(st, false, text, lineNo) == Ok(Inside(st.doc, name, [], None))
  {
    KeepsTrimmed(name);
  }

  lemma {:induction false} HeaderLine(st: State, line: string, name: string, lineNo: nat)
    requires CanonicalName(name) && line == "[" + name + "]"
    ensures ParseLine(st, line, lineNo) == Ok(Inside(st.doc, name, [], None))
  {
    HeaderText(name);
    ReadsGoodLine(line);
    InterpretHeader(st, line, name, lineNo);
  }

  lemma {:induction false} KeyLineText(key: string, value: string)
    requires CanonicalKey(key) && (value == "" || GoodText(value))
    ensures var line := key + "=" + value;
            Trimmed(line) && CommentFree(line) && SplitOnce(line, '=') == Some((key, value))
            && line[0] != '#' && line[0] != '[' && !IsBlank(line[0])
  {
    var line := key + "=" + value;
    forall i | 0 <= i < |line|
      ensures !IsComment(line, i)
    {
      if i < |key| {
        assert !IsComment(key, i);
      } else if i > |key| + 1 {
        assert !IsComment(value, i - |key| - 1);
      }
    }
    assert line == key + ['='] + value;
    FindUnique(key, '=', value);
    assert line[..|key|] == key && line[|key| + 1..] == value;
  }

  lemma {:induction false} InterpretEntry(st: State, text: string, key: string, value: string, lineNo: nat)
    requires text != "" && text[0] != '[' && SplitOnce(text, '=') == Some((key, value)) && st.doc != []
    ensures Trim(key) == key && Trim(value) == value && StripInlineComment(value) == value ==>
              Interpret(st, false, text, lineNo) ==
              Ok(State(UpdateLast(st.doc, SetEntry(LastEntries(st.doc), key, value)), Some(key)))
  {
  }

  lemma {:induction false} InterpretKeyLine(prior: IniDocument, name: string, entries: seq<(string, string)>,
                                            current: Option<string>, line: string, key: string, value: string, lineNo: nat)
    requires line != "" && line[0] != '[' && SplitOnce(line, '=') == Some((key, value)) && Absent(entries, key)
    ensures Trim(key) == key && Trim(value) == value && StripInlineComment(value) == value ==>
              Interpret(Inside(prior, name, entries, current), false, line, lineNo) ==
              Ok(Inside(prior, name, entries + [(key, value)], Some(key)))
  {
    InterpretEntry(Inside(prior, name, entries, current), line, key, value, lineNo);
    SetNew(entries, key, value);
    UpdateInside(prior, name, entries, entries + [(key, value)], current);
  }

  lemma {:induction false} ReadsKeyLine(key: string, value: string, line: string)
    requires CanonicalKey(key) && (value == "" || GoodText(value)) && line == key + "=" + value
    ensures ReadLine(line) == Some((false, line)) && line != "" && line[0] != '['
    ensures SplitOnce(line, '=') == Some((key, value))
  {
    KeyLineText(key, value);
    ReadsGoodLine(line);
  }

  lemma {:induction false} UpdateInside(prior: IniDocument, name: string, entries: seq<(string, string)>, entries': seq<(string, string)>,
                     current: Option<string>)
    ensures var doc := Inside(prior, name, entries, current).doc;
            LastEntries(doc) == entries && UpdateLast(doc, entries') == prior + [IniSection(name, entries')]
  {
    assert (prior + [IniSection(name, entries)])[..|prior|] == prior;
  }

  lemma {:induction false} ReadsIndented(indent: string, text: string)
    requires IsIndent(indent) && GoodText(text) && text[0] != '#'
    ensures ReadLine(indent + text) == Some((true, text))
  {
    var line := indent + text;
    assert line[|line| - 1] == text[|text| - 1] != '\r';
    assert TrimReturns(line) == line;
    assert Trim(line) == text by {
      TrimIndent(indent, text);
      KeepsTrimmed(text);
    }
    assert IsBlank(line[0]);
    assert StripInlineComment(text) == text by { StripNothing(text); }
  }

  lemma {:induction false} ContinuationLine(prior: IniDocument, name: string, entries: seq<(string, string)>,
                                            key: string, value: string, indent: string, text: string, lineNo: nat)
    requires IsIndent(indent) && GoodText(text) && text[0] != '#' && value != ""
    requires Absent(entries, key)
    ensures ParseLine(Inside(prior, name, entries + [(key, value)], Some(key)), indent + text, lineNo) ==
            Ok(Inside(prior, name, entries + [(key, value + "\n" + text)], Some(key)))
  {
    ReadsIndented(indent, text);
    KeepsTrimmed(text);
    SetLast(entries, key, value, value + "\n" + text);
    UpdateInside(prior, name, entries + [(key, value)], entries + [(key, value + "\n" + text)], Some(key));
  }

  // ---- Printed documents ----

  /** A line parser that is `ParseLine`. */
  ghost predicate Faithful(line: LineParser) {
    forall st, raw, lineNo {:trigger ParseLine(st, raw, lineNo)} :: line(st, raw, lineNo) == ParseLine(st, raw, lineNo)
  }

  lemma {:induction false} Chain(line: LineParser, st: State, a: seq<string>, b: seq<string>, lineNo: nat, mid: State)
    requires ParseLines(line, st, a, lineNo) == Ok(mid)
    ensures ParseLines(line, st, a + b, lineNo) == ParseLines(line, mid, b, lineNo + |a|)
    decreases |a|
  {
    if a == [] {
      assert a + b == b;
    } else {
      assert (a + b)[1..] == a[1..] + b;
      Chain(line, line(st, a[0], lineNo).value, a[1..], b, lineNo + 1, mid);
    }
  }

  lemma {:induction false} ContinuationLines(line: LineParser, prior: IniDocument, name: string,
                                             entries: seq<(string, string)>, key: string, value: string,
                                             indent: string, lines: seq<string>, lineNo: nat)
    requires Faithful(line) && IsIndent(indent) && value != ""
    requires forall i :: 0 <= i < |lines| ==> GoodText(lines[i]) && lines[i][0] != '#'
    requires Absent(entries, key)
    ensures ParseLines(line, Inside(prior, name, entries + [(key, value)], Some(key)), Indented(indent, lines), lineNo) ==
            Ok(Inside(prior, name, entries + [(key, JoinFrom(value, lines))], Some(key)))
    decreases |lines|
  {
    if lines != [] {
      ContinuationLine(prior, name, entries, key, value, indent, lines[0], lineNo);
      assert Indented(indent, lines)[1..] == Indented(indent, lines[1..]);
      ContinuationLines(line, prior, name, entries, key, value + "\n" + lines[0], indent, lines[1..], lineNo + 1);
    }
  }

  lemma {:induction false} Entry(line: LineParser, prior: IniDocument, name: string, entries: seq<(string, string)>,
                                 current: Option<string>, entry: (string, string), indent: string, lineNo: nat)
    requires Faithful(line) && IsIndent(indent) && CanonicalEntry(entry)
    requires Absent(entries, entry.0)
    ensures ParseLines(line, Inside(prior, name, entries, current), EntryLines(indent, entry), lineNo) ==
            Ok(Inside(prior, name, entries + [entry], Some(entry.0)))
  {
    var printed, lines := EntryLines(indent, entry), Lines(entry.1);
    var first := if lines == [] then "" else lines[0];
    assert forall i :: 0 <= i < |lines| ==> GoodLine(lines[i], i);
    var keyLine := entry.0 + "=" + first;
    assert ParseLine(Inside(prior, name, entries, current), keyLine, lineNo) ==
           Ok(Inside(prior, name, entries + [(entry.0, first)], Some(entry.0))) by {
      assert Trim(entry.0) == entry.0 by { KeepsTrimmed(entry.0); }
      assert Trim(first) == first by { KeepsTrimmed(first); }
      assert StripInlineComment(first) == first by { StripNothing(first); }
      ReadsKeyLine(entry.0, first, keyLine);
      InterpretKeyLine(prior, name, entries, current, keyLine, entry.0, first, lineNo);
    }
    if lines == [] {
      assert printed[1..] == [];
    } else {
      assert printed[1..] == Indented(indent, lines[1..]);
      ContinuationLines(line, prior, name, entries, entry.0, first, indent, lines[1..], lineNo + 1);
    }
    assert (entry.0, entry.1) == entry;
  }

  lemma {:induction false} EntryAt(line: LineParser, prior: IniDocument, name: string, entries: seq<(string, string)>,
                                   k: nat, current: Option<string>, indent: string, lineNo: nat)
    requires Faithful(line) && IsIndent(indent) && CanonicalEntries(entries) && k < |entries|
    ensures ParseLines(line, Inside(prior, name, entries[..k], current), EntryLines(indent, entries[k]), lineNo) ==
            Ok(Inside(prior, name, entries[..k + 1], Some(entries[k].0)))
  {
    assert CanonicalEntry(entries[k]) && Absent(entries[..k], entries[k].0);
    assert entries[..k + 1] == entries[..k] + [entries[k]];
    Entry(line, prior, name, entries[..k], current, entries[k], indent, lineNo);
  }

  lemma {:induction false} EntriesLinesAt(indent: string, entries: seq<(string, string)>, k: nat)
    requires k < |entries|
    ensures EntriesLines(indent, entries[k..]) ==
            EntryLines(indent, entries[k]) + EntriesLines(indent, entries[k + 1..])
  {
    assert entries[k..][1..] == entries[k + 1..];
  }

  /** The entries from the `k`-th one on. */
  lemma {:induction false} Entries(line: LineParser, prior: IniDocument, name: string, entries: seq<(string, string)>,
                                   k: nat, current: Option<string>, indent: string, lineNo: nat)
    requires Faithful(line) && IsIndent(indent) && CanonicalEntries(entries) && k <= |entries|
    ensures var r := ParseLines(line, Inside(prior, name, entries[..k], current), EntriesLines(indent, entries[k..]), lineNo);
            r.Ok? && r.value.doc == prior + [IniSection(name, entries)]
    decreases |entries| - k
  {
    if k == |entries| {
      assert entries[..k] == entries;
    } else {
      var first, rest := EntryLines(indent, entries[k]), EntriesLines(indent, entries[k + 1..]);
      var mid := Inside(prior, name, entries[..k + 1], Some(entries[k].0));
      EntriesLinesAt(indent, entries, k);
      EntryAt(line, prior, name, entries, k, current, indent, lineNo);
      Chain(line, Inside(prior, name, entries[..k], current), first, rest, lineNo, mid);
      Entries(line, prior, name, entries, k + 1, mid.current, indent, lineNo + |first|);
    }
  }

  lemma {:induction false} Section(line: LineParser, st: State, sec: IniSection, indent: string, lineNo: nat)
    requires Faithful(line) && IsIndent(indent) && CanonicalSection(sec)
    ensures var r := ParseLines(line, st, SectionLines(indent, sec), lineNo);
            r.Ok? && r.value.doc == st.doc + [sec]
  {
    HeaderLine(st, "[" + sec.name + "]", sec.name, lineNo);
    assert SectionLines(indent, sec)[1..] == EntriesLines(indent, sec.entries);
    assert sec.entries[..0] == [] && sec.entries[0..] == sec.entries;
    Entries(line, st.doc, sec.name, sec.entries, 0, None, indent, lineNo + 1);
  }

  predicate AddsSection(line: LineParser, st: State, sec: IniSection, indent: string, lineNo: nat) {
    var r := ParseLines(line, st, SectionLines(indent, sec), lineNo);
    r.Ok? && r.value.doc == st.doc + [sec]
  }

  /** Reading the section's lines adds it, whatever was parsed before. */
  ghost predicate IsRead(line: LineParser, sec: IniSection, indent: string) {
    forall st: State, lineNo: nat {:trigger AddsSection(line, st, sec, indent, lineNo)} ::
      AddsSection(line, st, sec, indent, lineNo)
  }

  lemma {:induction false} EachIsRead(line: LineParser, doc: IniDocument, indent: string)
    requires Faithful(line) && IsIndent(indent) && Canonical(doc)
    ensures forall i {:trigger doc[i]} :: 0 <= i < |doc| ==> IsRead(line, doc[i], indent)
  {
    forall i, st: State, lineNo: nat | 0 <= i < |doc|
      ensures AddsSection(line, st, doc[i], indent, lineNo)
    {
      assert CanonicalSection(doc[i]);
      Section(line, st, doc[i], indent, lineNo);
    }
  }

  /** Reading the lines of `doc` from here on ends with the document `end`. */
  ghost predicate EndsWith(line: LineParser, st: State, doc: IniDocument, indent: string, lineNo: nat, end: IniDocument) {
    forall lines {:trigger ParseLines(line, st, lines, lineNo)} :: lines == DocLines(indent, doc) ==>
      var r := ParseLines(line, st, lines, lineNo);
      r.Ok? && r.value.doc == end
  }

  lemma {:induction false} Sections(line: LineParser, st: State, doc: IniDocument, indent: string, lineNo: nat)
    requires forall i {:trigger doc[i]} :: 0 <= i < |doc| ==> IsRead(line, doc[i], indent)
    ensures EndsWith(line, st, doc, indent, lineNo, st.doc + doc)
    decreases |doc|
  {
    if doc == [] {
      assert st.doc + doc == st.doc;
    } else {
      var mid, next := SectionThenRest(line, st, doc, indent, lineNo, st.doc + doc);
      Sections(line, mid, doc[1..], indent, next);
      FirstAndRest(st.doc, doc);
    }
  }

  lemma {:induction false} SectionThenRest(line: LineParser, st: State, doc: IniDocument, indent: string, lineNo: nat, end: IniDocument)
    returns (mid: State, next: nat)
    requires doc != [] && IsRead(line, doc[0], indent)
    ensures mid.doc == st.doc + [doc[0]]
    ensures EndsWith(line, mid, doc[1..], indent, next, end) ==> EndsWith(line, st, doc, indent, lineNo, end)
  {
    var lines, rest := SectionLines(indent, doc[0]), DocLines(indent, doc[1..]);
    assert AddsSection(line, st, doc[0], indent, lineNo);
    mid, next := ParseLines(line, st, lines, lineNo).value, lineNo + |lines|;
    Chain(line, st, lines, rest, lineNo, mid);
    assert DocLines(indent, doc) == lines + rest;
  }

  lemma {:induction false} FirstAndRest(before: IniDocument, doc: IniDocument)
    requires doc != []
    ensures before + [doc[0]] + doc[1..] == before + doc
  {
  }

  /** Every line is one line. */
  ghost predicate OneLineEach(lines: seq<string>) {
    forall i {:trigger lines[i]} :: 0 <= i < |lines| ==> '\n' !in lines[i]
  }

  lemma {:induction false} OneLineConcat(a: seq<string>, b: seq<string>)
    requires OneLineEach(a) && OneLineEach(b)
    ensures OneLineEach(a + b)
  {
  }

  lemma {:induction false} EntryIsLines(indent: string, entry: (string, string))
    requires IsIndent(indent) && CanonicalEntry(entry)
    ensures OneLineEach(EntryLines(indent, entry))
  {
    var lines := Lines(entry.1);
    forall i | 0 <= i < |EntryLines(indent, entry)|
      ensures '\n' !in EntryLines(indent, entry)[i]
    {
      assert i < |lines| ==> GoodLine(lines[i], i);
      if i > 0 {
        assert EntryLines(indent, entry)[i] == indent + lines[i];
      }
    }
  }

  lemma {:induction false} EntriesAreLines(indent: string, entries: seq<(string, string)>)
    requires IsIndent(indent) && forall i {:trigger entries[i]} :: 0 <= i < |entries| ==> CanonicalEntry(entries[i])
    ensures OneLineEach(EntriesLines(indent, entries))
    decreases |entries|
  {
    if entries != [] {
      EntryIsLines(indent, entries[0]);
      EntriesAreLines(indent, entries[1..]);
      OneLineConcat(EntryLines(indent, entries[0]), EntriesLines(indent, entries[1..]));
    }
  }

  lemma {:induction false} SectionIsLines(indent: string, sec: IniSection)
    requires IsIndent(indent) && CanonicalSection(sec)
    ensures OneLineEach(SectionLines(indent, sec))
  {
    assert forall i :: 0 <= i < |sec.entries| ==> CanonicalEntry(sec.entries[i]);
    EntriesAreLines(indent, sec.entries);
    OneLineConcat(["[" + sec.name + "]"], EntriesLines(indent, sec.entries));
  }

  lemma {:induction false} DocumentIsLines(indent: string, doc: IniDocument)
    requires IsIndent(indent) && Canonical(doc)
    ensures OneLineEach(DocLines(indent, doc))
    decreases |doc|
  {
    if doc != [] {
      assert CanonicalSection(doc[0]);
      assert forall i :: 0 <= i < |doc[1..]| ==> CanonicalSection(doc[i + 1]) && doc[1..][i] == doc[i + 1];
      SectionIsLines(indent, doc[0]);
      DocumentIsLines(indent, doc[1..]);
      OneLineConcat(SectionLines(indent, doc[0]), DocLines(indent, doc[1..]));
    }
  }

  /** Parsing a printed document gives it back: sections, entries, order and all. */
  lemma {:induction false} RoundTrip(indent: string, doc: IniDocument)
    requires IsIndent(indent) && Canonical(doc)
    ensures Parse(Print(indent, doc)) == Ok(doc)
  {
    DocumentIsLines(indent, doc);
    LinesOfUnlines(DocLines(indent, doc));
    EachIsRead(LineOf(), doc, indent);
    Sections(LineOf(), State([], None), doc, indent, 1);
    assert State([], None).doc + doc == doc;
  }

  // ---- What parsing can produce ----

  lemma {:induction false} TrimStartGood(s: string)
    requires CommentFree(s) && '\n' !in s
    ensures CommentFree(TrimStart(s)) && '\n' !in TrimStart(s)
  {
    var n := |s| - |TrimStart(s)|;
    forall i | 0 <= i < |TrimStart(s)|
      ensures !IsComment(TrimStart(s), i)
    {
      assert !IsComment(s, i + n);
    }
  }

  lemma {:induction false} PrefixGood(s: string, t: string)
    requires CommentFree(s) && t <= s
    ensures CommentFree(t)
  {
    forall i | 0 <= i < |t|
      ensures !IsComment(t, i)
    {
      assert !IsComment(s, i);
    }
  }

  /** Trimming keeps a text on one line and free of comments. */
  lemma {:induction false} TrimGood(s: string)
    requires CommentFree(s) && '\n' !in s
    ensures Trimmed(Trim(s)) && CommentFree(Trim(s)) && '\n' !in Trim(s)
    ensures s != "" && !IsWhitespace(s[0]) ==> Trim(s) != "" && Trim(s)[0] == s[0]
    ensures Trim(s) != "" && s[0] != Trim(s)[0] ==> IsWhitespace(s[0])
    ensures forall c :: c !in s ==> c !in Trim(s)
  {
    TrimStartGood(s);
    PrefixGood(TrimStart(s), Trim(s));
    TrimAddsNothing(s);
  }

  lemma {:induction false} TrimAddsNothing(s: string)
    ensures forall c :: c !in s ==> c !in Trim(s)
  {
    var t := TrimStart(s);
    assert forall c :: c !in s ==> c !in t;
    assert Trim(s) <= t;
  }

  lemma {:induction false} StripGood(s: string)
    requires '\n' !in s
    ensures CommentFree(StripInlineComment(s)) && '\n' !in StripInlineComment(s)
    ensures s != "" && !IsWhitespace(s[0]) ==> StripInlineComment(s) != "" && StripInlineComment(s)[0] == s[0]
  {
    var i := CommentStart(s, 0);
    if i < |s| {
      var t := TrimEnd(s[..i]);
      forall j | 0 <= j < |t|
        ensures !IsComment(t, j)
      {
        assert !IsComment(s, j);
      }
    }
  }

  /** What is left of a line is a good text that starts no comment line. */
  lemma {:induction false} ReadLineGood(raw: string)
    requires '\n' !in raw && ReadLine(raw).Some?
    ensures var text := ReadLine(raw).value.1;
            CommentFree(text) && '\n' !in text && text != "" && text[0] != '#' && !IsWhitespace(text[0])
  {
    var line := TrimReturns(raw);
    NoNewReturns(raw);
    assert '\n' !in TrimStart(line) && '\n' !in Trim(line);
    StripGood(Trim(line));
  }

  lemma {:induction false} NoNewReturns(raw: string)
    ensures TrimReturns(raw) <= raw
    decreases |raw|
  {
    if raw != "" && raw[|raw| - 1] == '\r' {
      NoNewReturns(raw[..|raw| - 1]);
    }
  }

  lemma {:induction false} LinesSplit(v: string, i: nat, s: string)
    requires i < |v| && v[i] == '\n'
    ensures v + "\n" + s == v[..i] + ['\n'] + (v[i + 1..] + "\n" + s)
    ensures v == v[..i] + ['\n'] + v[i + 1..]
  {
  }

  /** Adding a line to a value that does not end one. */
  lemma {:induction false} LinesAppend(v: string, s: string)
    requires v != "" && v[|v| - 1] != '\n' && s != "" && '\n' !in s
    ensures Lines(v + "\n" + s) == Lines(v) + [s]
    decreases |v|
  {
    var at := Find(v, '\n');
    if at.None? {
      FirstLine(v, s);
    } else {
      var head, rest := v[..at.value], v[at.value + 1..];
      LinesSplit(v, at.value, s);
      LinesAppend(rest, s);
      LinesAppendMore(head, rest, s, v, rest + "\n" + s, v + "\n" + s);
    }
  }

  lemma {:induction false} LinesAppendMore(head: string, rest: string, s: string, v: string, longer: string, all: string)
    requires '\n' !in head && v == head + ['\n'] + rest && all == head + ['\n'] + longer
    requires Lines(longer) == Lines(rest) + [s]
    ensures Lines(all) == Lines(v) + [s]
  {
    FirstLine(head, rest);
    FirstLine(head, longer);
    assert [head] + (Lines(rest) + [s]) == [head] + Lines(rest) + [s];
  }

  lemma {:induction false} JoinFromAppend(first: string, lines: seq<string>, s: string)
    ensures JoinFrom(first, lines + [s]) == JoinFrom(first, lines) + "\n" + s
    decreases |lines|
  {
    if lines == [] {
      assert (lines + [s])[1..] == [];
    } else {
      assert (lines + [s])[1..] == lines[1..] + [s];
      JoinFromAppend(first + "\n" + lines[0], lines[1..], s);
    }
  }

  lemma {:induction false} JoinFromEnds(first: string, lines: seq<string>)
    requires first != "" && first[|first| - 1] != '\n'
    requires forall i :: 0 <= i < |lines| ==> lines[i] != "" && '\n' !in lines[i]
    ensures JoinFrom(first, lines) != "" && JoinFrom(first, lines)[|JoinFrom(first, lines)| - 1] != '\n'
    decreases |lines|
  {
    if lines != [] {
      JoinFromEnds(first + "\n" + lines[0], lines[1..]);
    }
  }

  lemma {:induction false} OneLineCanonical(s: string)
    requires s == "" || GoodText(s)
    ensures CanonicalValue(s)
  {
    assert s != "" ==> Lines(s) == [s] && [s][1..] == [];
  }

  lemma {:induction false} AppendedCanonical(v: string, s: string)
    requires CanonicalValue(v) && GoodText(s) && s[0] != '#'
    ensures CanonicalValue(if v == "" then s else v + "\n" + s)
  {
    if v == "" {
      OneLineCanonical(s);
    } else {
      var lines := Lines(v);
      GoodLinesAppend(lines, s);
      JoinFromEnds(lines[0], lines[1..]);
      LinesAppend(v, s);
      JoinAppend(lines, s);
      LongerIsCanonical(v + "\n" + s, lines + [s]);
    }
  }

  lemma {:induction false} JoinAppend(lines: seq<string>, s: string)
    requires lines != []
    ensures Join(lines + [s]) == Join(lines) + "\n" + s
  {
    assert (lines + [s])[1..] == lines[1..] + [s];
    JoinFromAppend(lines[0], lines[1..], s);
  }

  lemma {:induction false} LongerIsCanonical(v: string, lines: seq<string>)
    requires Lines(v) == lines && v == Join(lines)
    requires forall i {:trigger lines[i]} :: 0 <= i < |lines| ==> GoodLine(lines[i], i)
    ensures CanonicalValue(v)
  {
  }

  lemma {:induction false} GoodLinesAppend(lines: seq<string>, s: string)
    requires lines != [] && GoodText(s) && s[0] != '#'
    requires forall i {:trigger GoodLine(lines[i], i)} :: 0 <= i < |lines| ==> GoodLine(lines[i], i)
    ensures lines[0] != "" && lines[0][|lines[0]| - 1] != '\n'
    ensures forall i :: 0 <= i < |lines[1..]| ==> lines[1..][i] != "" && '\n' !in lines[1..][i]
    ensures forall i {:trigger (lines + [s])[i]} :: 0 <= i < |lines + [s]| ==> GoodLine((lines + [s])[i], i)
  {
    assert forall i :: 0 <= i < |lines| ==> GoodLine(lines[i], i);
  }

  lemma {:induction false} EntriesTail(entries: seq<(string, string)>, e: (string, string))
    requires CanonicalEntries([e] + entries)
    ensures CanonicalEntries(entries) && CanonicalEntry(e) && Absent(entries, e.0)
  {
    var all := [e] + entries;
    assert CanonicalEntry(all[0]);
    forall i | 0 <= i < |entries|
      ensures CanonicalEntry(entries[i]) && Absent(entries[..i], entries[i].0) && entries[i].0 != e.0
    {
      assert CanonicalEntry(all[i + 1]) && Absent(all[..i + 1], all[i + 1].0);
      assert all[..i + 1] == [e] + entries[..i];
      assert ([e] + entries[..i])[0] == e;
      forall j | 0 <= j < i
        ensures entries[..i][j].0 != entries[i].0
      {
        assert ([e] + entries[..i])[j + 1] == entries[..i][j];
      }
    }
  }

  lemma {:induction false} EntriesCons(entries: seq<(string, string)>, e: (string, string))
    requires CanonicalEntries(entries) && CanonicalEntry(e) && Absent(entries, e.0)
    ensures CanonicalEntries([e] + entries)
  {
    var all := [e] + entries;
    forall i | 0 <= i < |all|
      ensures CanonicalEntry(all[i]) && Absent(all[..i], all[i].0)
    {
      if i > 0 {
        assert CanonicalEntry(entries[i - 1]) && Absent(entries[..i - 1], entries[i - 1].0);
        assert all[..i] == [e] + entries[..i - 1];
        assert entries[i - 1].0 != e.0;
      }
    }
  }

  lemma {:induction false} SetKeepsKeys(entries: seq<(string, string)>, key: string, value: string, other: string)
    requires Absent(entries, other) && other != key
    ensures Absent(SetEntry(entries, key, value), other)
  {
    if entries != [] {
      AbsentTail(entries, other);
      SetKeepsKeys(entries[1..], key, value, other);
    }
  }

  lemma {:induction false} SetCanonical(entries: seq<(string, string)>, key: string, value: string)
    requires CanonicalEntries(entries) && CanonicalEntry((key, value))
    ensures CanonicalEntries(SetEntry(entries, key, value))
  {
    if entries == [] {
      assert [(key, value)] == [(key, value)] + [];
      EntriesCons([], (key, value));
    } else {
      assert entries == [entries[0]] + entries[1..];
      EntriesTail(entries[1..], entries[0]);
      if entries[0].0 == key {
        EntriesCons(entries[1..], (key, value));
      } else {
        SetCanonical(entries[1..], key, value);
        SetKeepsKeys(entries[1..], key, value, entries[0].0);
        EntriesCons(SetEntry(entries[1..], key, value), entries[0]);
      }
    }
  }

  lemma {:induction false} LookupCanonical(entries: seq<(string, string)>, key: string)
    requires CanonicalEntries(entries)
    ensures match Lookup(entries, key) case Some(v) => CanonicalValue(v) case None => true
  {
    if entries != [] {
      assert entries == [entries[0]] + entries[1..];
      EntriesTail(entries[1..], entries[0]);
      LookupCanonical(entries[1..], key);
    }
  }

  ghost predicate CanonicalState(st: State) {
    Canonical(st.doc) && (st.current.Some? ==> CanonicalKey(st.current.value))
  }

  lemma {:induction false} UpdateCanonical(doc: IniDocument, entries: seq<(string, string)>)
    requires doc != [] && Canonical(doc) && CanonicalEntries(entries)
    ensures Canonical(UpdateLast(doc, entries))
  {
    var after := UpdateLast(doc, entries);
    forall i | 0 <= i < |after|
      ensures CanonicalSection(after[i])
    {
      assert CanonicalSection(doc[i]);
    }
  }

  lemma {:induction false} ContinuationCanonical(st: State, text: string)
    requires CanonicalState(st) && st.doc != [] && st.current.Some? && GoodText(text) && text[0] != '#'
    ensures Canonical(UpdateLast(st.doc, AppendEntry(LastEntries(st.doc), st.current.value, text)))
  {
    var key, entries := st.current.value, LastEntries(st.doc);
    assert CanonicalSection(st.doc[|st.doc| - 1]);
    LookupCanonical(entries, key);
    var v := match Lookup(entries, key) case Some(v) => v case None => "";
    OneLineCanonical("");
    AppendedCanonical(v, text);
    SetCanonical(entries, key, if v == "" then text else v + "\n" + text);
    UpdateCanonical(st.doc, AppendEntry(entries, key, text));
  }

  lemma {:induction false} KeyCanonical(text: string, k: string)
    requires CommentFree(text) && '\n' !in text && text != "" && text[0] != '#' && !IsWhitespace(text[0]) && text[0] != '['
    requires k <= text && '=' !in k
    ensures CanonicalKey(Trim(k))
  {
    PrefixGood(text, k);
    TrimGood(k);
  }

  lemma {:induction false} FirstValueCanonical(v: string)
    requires '\n' !in v
    ensures CanonicalValue(Trim(StripInlineComment(v)))
  {
    StripGood(v);
    TrimGood(StripInlineComment(v));
    OneLineCanonical(Trim(StripInlineComment(v)));
  }

  lemma {:induction false} SplitParts(text: string, k: string, v: string)
    requires SplitOnce(text, '=') == Some((k, v))
    ensures k <= text && '=' !in k && ('\n' !in text ==> '\n' !in v)
  {
  }

  lemma {:induction false} EntryCanonical(st: State, text: string, lineNo: nat)
    requires CanonicalState(st) && text != "" && text[0] != '[' && SplitOnce(text, '=').Some? && st.doc != []
    requires CommentFree(text) && '\n' !in text && text[0] != '#' && !IsWhitespace(text[0])
    ensures var (k, v) := SplitOnce(text, '=').value;
            && Canonical(UpdateLast(st.doc, SetEntry(LastEntries(st.doc), Trim(k), Trim(StripInlineComment(v)))))
            && CanonicalKey(Trim(k))
  {
    var (k, v) := SplitOnce(text, '=').value;
    SplitParts(text, k, v);
    KeyCanonical(text, k);
    FirstValueCanonical(v);
    assert CanonicalSection(st.doc[|st.doc| - 1]);
    SetCanonical(LastEntries(st.doc), Trim(k), Trim(StripInlineComment(v)));
    UpdateCanonical(st.doc, SetEntry(LastEntries(st.doc), Trim(k), Trim(StripInlineComment(v))));
  }

  lemma {:induction false} SectionAdded(doc: IniDocument, name: string)
    requires Canonical(doc) && CanonicalName(name)
    ensures Canonical(doc + [IniSection(name, [])])
  {
    var after := doc + [IniSection(name, [])];
    forall i | 0 <= i < |after|
      ensures CanonicalSection(after[i])
    {
      assert i < |doc| ==> CanonicalSection(doc[i]);
    }
  }

  lemma {:induction false} NameCanonical(text: string, end: nat)
    requires CommentFree(text) && '\n' !in text && text != "" && text[0] == '[' && Find(text, ']') == Some(end)
    ensures CanonicalName(Trim(text[1..end]))
  {
    var inner := text[1..end];
    forall i | 0 <= i < |inner|
      ensures !IsComment(inner, i)
    {
      assert !IsComment(text, i + 1);
    }
    assert ']' !in inner by {
      assert forall i :: 0 <= i < |inner| ==> inner[i] == text[..end][i + 1];
    }
    TrimGood(inner);
  }

  lemma {:induction false} InterpretCanonical(st: State, indented: bool, text: string, lineNo: nat)
    requires CanonicalState(st)
    requires CommentFree(text) && '\n' !in text && text != "" && text[0] != '#' && !IsWhitespace(text[0])
    requires Interpret(st, indented, text, lineNo).Ok?
    ensures CanonicalState(Interpret(st, indented, text, lineNo).value)
  {
    if indented && st.current.Some? {
      if st.doc != [] {
        TrimGood(text);
        ContinuationCanonical(st, Trim(text));
      }
    } else if text[0] == '[' {
      NameCanonical(text, Find(text, ']').value);
      SectionAdded(st.doc, Trim(text[1..Find(text, ']').value]));
    } else {
      EntryCanonical(st, text, lineNo);
    }
  }

  lemma {:induction false} LinesCanonical(line: LineParser, st: State, lines: seq<string>, lineNo: nat)
    requires Faithful(line) && CanonicalState(st) && ParseLines(line, st, lines, lineNo).Ok?
    requires forall i :: 0 <= i < |lines| ==> '\n' !in lines[i]
    ensures CanonicalState(ParseLines(line, st, lines, lineNo).value)
    decreases |lines|
  {
    if lines != [] {
      var read := ReadLine(lines[0]);
      assert line(st, lines[0], lineNo) == ParseLine(st, lines[0], lineNo);
      if read.Some? {
        ReadLineGood(lines[0]);
        InterpretCanonical(st, read.value.0, read.value.1, lineNo);
      }
      LinesCanonical(line, line(st, lines[0], lineNo).value, lines[1..], lineNo + 1);
    }
  }

  lemma {:induction false} LinesHaveNoNewlines(s: string, i: nat)
    requires i < |Lines(s)|
    ensures '\n' !in Lines(s)[i]
    decreases |s|
  {
    if Find(s, '\n').Some? && i > 0 {
      LinesHaveNoNewlines(s[Find(s, '\n').value + 1..], i - 1);
    }
  }

  /** Whatever parses, parses to a canonical document. */
  lemma {:induction false} ParsedIsCanonical(input: string)
    ensures Parse(input).Ok? ==> Canonical(Parse(input).value)
  {
    forall i | 0 <= i < |Lines(input)|
      ensures '\n' !in Lines(input)[i]
    {
      LinesHaveNoNewlines(input, i);
    }
    if Parse(input).Ok? {
      LinesCanonical(LineOf(), State([], None), Lines(input), 1);
    }
  }

  /** The canonical documents are exactly the ones that some text parses to. */
  lemma {:induction false} CanonicalIffParsed(doc: IniDocument)
    ensures Canonical(doc) <==> exists input :: Parse(input) == Ok(doc)
  {
    if Canonical(doc) {
      assert IsIndent(" ");
      RoundTrip(" ", doc);
    }
    if input :| Parse(input) == Ok(doc) {
      ParsedIsCanonical(input);
    }
  }
}
