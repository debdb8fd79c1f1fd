/**
 The INI line parser: comments, section headers, `key = value` lines and
 indented continuations.

 `Parse` is the parser as a function of its lines; `ParseIni` is the loop.
 */
module IniParser {
  import opened Prelude
  import opened Text
  import opened Ini

  datatype ParseError =
    | MissingBracket(line: nat)
    | ExpectedKeyValue(line: nat)
    | EntryBeforeSection(line: nat)

  /** The document so far, and the key that a continuation belongs to. */
  datatype State = State(doc: IniDocument, current: Option<string>)

  // ---- Lines ----

  /** `str::lines`, without its treatment of carriage returns. */
  function Lines(s: string): seq<string> {
    if s == "" then []
    else
      match Find(s, '\n')
      case None => [s]
      case Some(i) => [s[..i]] + Lines(s[i + 1..])
  }

  /** `trim_end_matches('\r')` */
  function TrimReturns(s: string): string {
    if s != "" && s[|s| - 1] == '\r' then TrimReturns(s[..|s| - 1]) else s
  }

  predicate IsBlank(c: char) {
    c == ' ' || c == '\t'
  }

  predicate IsComment(s: string, i: int)
    requires 0 <= i < |s|
  {
    s[i] == ';' && i > 0 && IsBlank(s[i - 1])
  }

  ghost predicate CommentFree(s: string) {
    forall i :: 0 <= i < |s| ==> !IsComment(s, i)
  }

  /** Where the first inline comment at or after `i` starts, or the end. */
  function CommentStart(s: string, i: nat): (r: nat)
    requires i <= |s|
    ensures i <= r <= |s| && (r < |s| ==> IsComment(s, r))
    ensures forall j :: i <= j < r ==> !IsComment(s, j)
    decreases |s| - i
  {
    if i == |s| || IsComment(s, i) then i else CommentStart(s, i + 1)
  }

  function StripInlineComment(s: string): string {
    var i := CommentStart(s, 0);
    if i == |s| then s else TrimEnd(s[..i])
  }

  // ---- Entries ----

  /** `IndexMap::insert`: a key that is there keeps its place. */
  function SetEntry(entries: seq<(string, string)>, key: string, value: string): seq<(string, string)> {
    if entries == [] then [(key, value)]
    else if entries[0].0 == key then [(key, value)] + entries[1..]
    else [entries[0]] + SetEntry(entries[1..], key, value)
  }

  /** `IniSection::append`: one more line of a value. */
  function AppendEntry(entries: seq<(string, string)>, key: string, suffix: string): seq<(string, string)> {
    var before := match Lookup(entries, key) case Some(v) => v case None => "";
    SetEntry(entries, key, if before == "" then suffix else before + "\n" + suffix)
  }

  function UpdateLast(doc: IniDocument, entries: seq<(string, string)>): IniDocument
    requires doc != []
  {
    doc[..|doc| - 1] + [IniSection(doc[|doc| - 1].name, entries)]
  }

  function LastEntries(doc: IniDocument): seq<(string, string)>
    requires doc != []
  {
    doc[|doc| - 1].entries
  }

  // ---- One line ----

  /** What is left of a line without comments and outer blanks, and whether it
      was indented; nothing for an empty line or a comment line. */
  function ReadLine(raw: string): Option<(bool, string)> {
    var line := TrimReturns(raw);
    var trimmed := Trim(line);
    if trimmed == "" || trimmed[0] == '#' then None
    else Some((IsBlank(line[0]), StripInlineComment(trimmed)))
  }

  /** A continuation of the current key, a section header or a new entry. */
  function Interpret(st: State, indented: bool, text: string, lineNo: nat): Result<State, ParseError> {
    if indented && st.current.Some? then
      Ok(if st.doc == [] then st
         else st.(doc := UpdateLast(st.doc, AppendEntry(LastEntries(st.doc), st.current.value, Trim(text)))))
    else if text != "" && text[0] == '[' then
      match Find(text, ']')
      case None => Err(MissingBracket(lineNo))
      case Some(end) => Ok(State(st.doc + [IniSection(Trim(text[1..end]), [])], None))
    else
      match SplitOnce(text, '=')
      case None => Err(ExpectedKeyValue(lineNo))
      case Some((k, v)) =>
        if st.doc == [] then Err(EntryBeforeSection(lineNo))
        else
          Ok(State(UpdateLast(st.doc, SetEntry(LastEntries(st.doc), Trim(k), Trim(StripInlineComment(v)))),
                   Some(Trim(k))))
  }

  function ParseLine(st: State, raw: string, lineNo: nat): Result<State, ParseError> {
    match ReadLine(raw)
    case None => Ok(st)
    case Some((indented, text)) => Interpret(st, indented, text, lineNo)
  }

  // ---- All lines ----

  type LineParser = (State, string, nat) -> Result<State, ParseError>

  function ParseLines(line: LineParser, st: State, lines: seq<string>, lineNo: nat): Result<State, ParseError>
    decreases |lines|
  {
    if lines == [] then Ok(st)
    else
      var next :- line(st, lines[0], lineNo);
      ParseLines(line, next, lines[1..], lineNo + 1)
  }

  function LineOf(): LineParser {
    (st: State, raw: string, lineNo: nat) => ParseLine(st, raw, lineNo)
  }

  function Parse(input: string): Result<IniDocument, ParseError> {
    var st :- ParseLines(LineOf(), State([], None), Lines(input), 1);
    Ok(st.doc)
  }

  // ---- The parser as written ----

  method StripComment(s: string) returns (r: string)
    ensures r == StripInlineComment(s)
  {
    var lastBlank := false;
    var i := 0;
    while i < |s|
      invariant 0 <= i <= |s|
      invariant lastBlank <==> i > 0 && IsBlank(s[i - 1])
      invariant CommentStart(s, 0) == CommentStart(s, i)
    {
      if s[i] == ';' && lastBlank {
        return TrimEnd(s[..i]);
      }
      lastBlank := IsBlank(s[i]);
      i := i + 1;
    }
    r := s;
  }

  /** One turn of the parser's loop. */
  method ProcessLine(doc: IniDocument, current: Option<string>, raw: string, lineNo: nat)
    returns (r: Result<State, ParseError>)
    ensures r == ParseLine(State(doc, current), raw, lineNo)
  {
    var line := TrimReturns(raw);
    var isContinuation := line != "" && IsBlank(line[0]);
    var trimmed := Trim(line);
    if trimmed == "" {
      return Ok(State(doc, current));
    }
    if trimmed[0] == '#' {
      return Ok(State(doc, current));
    }
    var text := StripComment(trimmed);
    if isContinuation && current.Some? {
      if doc == [] {
        return Ok(State(doc, current));
      }
      return Ok(State(UpdateLast(doc, AppendEntry(LastEntries(doc), current.value, Trim(text))), current));
    }
    if text != "" && text[0] == '[' {
      var end := Find(text, ']');
      if end.None? {
        return Err(MissingBracket(lineNo));
      }
      return Ok(State(doc + [IniSection(Trim(text[1..end.value]), [])], None));
    }
    var parts := SplitOnce(text, '=');
    if parts.None? {
      return Err(ExpectedKeyValue(lineNo));
    }
    var key := Trim(parts.value.0);
    var value := StripComment(parts.value.1);
    if doc == [] {
      return Err(EntryBeforeSection(lineNo));
    }
    r := Ok(State(UpdateLast(doc, SetEntry(LastEntries(doc), key, Trim(value))), Some(key)));
  }

  method ParseIni(input: string) returns (r: Result<IniDocument, ParseError>)
    ensures r == Parse(input)
  {
    var st := State([], None);
    var lines, lineNo := Lines(input), 1;
    ghost var line := LineOf();
    ghost var outcome := ParseLines(line, st, lines, lineNo);
    while lines != []
      invariant outcome == ParseLines(line, st, lines, lineNo)
      decreases |lines|
    {
      var next := ProcessLine(st.doc, st.current, lines[0], lineNo);
      if next.Err? {
        return Err(next.error);
      }
      st, lines, lineNo := next.value, lines[1..], lineNo + 1;
    }
    r := Ok(st.doc);
  }
}
