/**
 What each line of an INI file means, however it is laid out: which lines are
 skipped, what a line reads as without its blanks and comment, what each kind of
 line does to the document, and which lines are errors.
 */
module IniReading {
  import opened Prelude
  import opened Text
  import opened Ini
  import opened IniParser
  import RoundTrip = IniRoundTrip

  // ---- What a line reads as ----

  predicate IsSpace(c: char) {
    c == ' ' || c == '\t'
  }

  /** No semicolon has a space or a tab before it. */
  ghost predicate NoComment(s: string) {
    forall i :: 0 < i < |s| && s[i] == ';' ==> !IsSpace(s[i - 1])
  }

  /** Text that stands on a line. */
  ghost predicate IsText(text: string) {
    text != "" && text[0] != '#' && Trimmed(text) && NoComment(text)
  }

  /** A comment: a semicolon with a space or a tab before it, and whatever follows. */
  predicate IsCommentAfter(gap: string, comment: string) {
    gap != "" && IsSpace(gap[|gap| - 1]) && comment != "" && comment[0] == ';'
  }

  ghost predicate Laid(raw: string, left: string, text: string, gap: string, comment: string) {
    && raw == left + (text + (gap + comment))
    && AllWhitespace(left) && AllWhitespace(gap)
    && (comment == "" || IsCommentAfter(gap, comment))
  }

  /** The line is the text, white space around it, and perhaps a comment. */
  ghost predicate ReadsAs(raw: string, text: string) {
    IsText(text) && exists left, gap, comment :: Laid(raw, left, text, gap, comment)
  }

  lemma {:induction false} TrimReturnsIs(s: string) returns (returns': string)
    ensures s == TrimReturns(s) + returns' && AllWhitespace(returns')
  {
    if s != "" && s[|s| - 1] == '\r' {
      returns' := TrimReturnsIs(s[..|s| - 1]);
      returns' := returns' + "\r";
    } else {
      returns' := "";
    }
  }

  lemma {:induction false} TrimEndIs(s: string) returns (right: string)
    requires s != "" ==> !IsWhitespace(s[0])
    ensures s == TrimEnd(s) + right && AllWhitespace(right) && Trimmed(TrimEnd(s))
  {
    right := s[|TrimEnd(s)|..];
  }

  /** Every text is its trimmed text with white space around it. */
  lemma {:induction false} TrimIs(s: string) returns (left: string, right: string)
    ensures s == left + (Trim(s) + right) && AllWhitespace(left) && AllWhitespace(right) && Trimmed(Trim(s))
  {
    var start := TrimStart(s);
    left := s[..|s| - |start|];
    LeftIsBlank(s);
    right := TrimEndIs(start);
  }

  lemma {:induction false} LeftIsBlank(s: string)
    ensures AllWhitespace(s[..|s| - |TrimStart(s)|])
  {
    if s != "" && IsWhitespace(s[0]) {
      LeftIsBlank(s[1..]);
      assert s[..|s| - |TrimStart(s)|] == [s[0]] + s[1..][..|s| - 1 - |TrimStart(s)|];
    }
  }

  lemma {:induction false} TrimOf(s: string, left: string, text: string, right: string)
    requires s == left + (text + right) && AllWhitespace(left) && AllWhitespace(right) && Trimmed(text)
    ensures Trim(s) == text
  {
    assert s == left + text + right;
    TrimPadded(left, text, right);
  }

  /** The text before the comment, and the comment trimmed at its end. */
  lemma {:induction false} StripsComment(text: string, gap: string, comment: string, s: string)
    requires IsText(text) && AllWhitespace(gap) && IsCommentAfter(gap, comment) && s == text + gap + comment
    ensures StripInlineComment(s) == text
  {
    var at := |text| + |gap|;
    assert IsComment(s, at);
    forall i | 0 <= i < at
      ensures !IsComment(s, i)
    {
      if i >= |text| {
        assert s[i] == gap[i - |text|] && s[i] in gap;
      }
    }
    assert CommentStart(s, 0) == at;
    assert s[..at] == text + gap;
    TrimEndPadded(text, gap);
  }

  lemma {:induction false} StripsNothing(s: string)
    requires NoComment(s)
    ensures StripInlineComment(s) == s
  {
  }

  lemma {:induction false} EndOfComment(comment: string)
    requires comment != "" && comment[0] == ';'
    ensures var end := TrimEnd(comment);
            end != "" && end[0] == ';' && !IsWhitespace(end[|end| - 1])
            && comment == end + comment[|end|..] && AllWhitespace(comment[|end|..])
  {
    assert TrimEnd(comment) != "";
  }

  /** What is left of the line once white space is trimmed. */
  lemma {:induction false} TrimsLaid(raw: string, left: string, text: string, gap: string, comment: string)
    requires IsText(text) && Laid(raw, left, text, gap, comment)
    ensures var trimmed := Trim(raw);
            && trimmed != "" && trimmed[0] == text[0]
            && StripInlineComment(trimmed) == text
  {
    if comment == "" {
      assert raw == left + (text + gap);
      TrimOf(raw, left, text, gap);
      StripsNothing(text);
    } else {
      EndOfComment(comment);
      var end := TrimEnd(comment);
      var inner := text + gap + end;
      assert raw == left + (inner + comment[|end|..]);
      TrimOf(raw, left, inner, comment[|end|..]);
      StripsComment(text, gap, end, inner);
    }
  }

  lemma {:induction false} SameTrim(raw: string, s: string, more: string, left: string, text: string, right: string)
    requires raw == s + more && s == left + (text + right)
    requires AllWhitespace(left) && AllWhitespace(right) && AllWhitespace(more) && Trimmed(text)
    ensures Trim(raw) == text
  {
    JoinWhitespace(right, more);
    assert raw == left + (text + (right + more));
    TrimOf(raw, left, text, right + more);
  }

  lemma {:induction false} TrimWithoutReturns(raw: string)
    ensures Trim(TrimReturns(raw)) == Trim(raw)
    ensures Trim(raw) != "" ==> TrimReturns(raw) != "" && TrimReturns(raw)[0] == raw[0]
  {
    var returns' := TrimReturnsIs(raw);
    var left, right := TrimIs(TrimReturns(raw));
    SameTrim(raw, TrimReturns(raw), returns', left, Trim(TrimReturns(raw)), right);
    FirstKept(raw, TrimReturns(raw), returns');
  }

  lemma {:induction false} FirstKept(raw: string, s: string, more: string)
    requires raw == s + more
    ensures s != "" ==> raw != "" && s[0] == raw[0]
  {
  }

  lemma {:induction false} JoinWhitespace(a: string, b: string)
    requires AllWhitespace(a) && AllWhitespace(b)
    ensures AllWhitespace(a + b)
  {
  }

  /** A line that is laid out around a text reads as the text. */
  lemma {:induction false} ReadsText(raw: string, text: string)
    requires ReadsAs(raw, text)
    ensures ReadLine(raw) == Some((raw != "" && IsSpace(raw[0]), text))
  {
    var left, gap, comment :| Laid(raw, left, text, gap, comment);
    TrimsLaid(raw, left, text, gap, comment);
    TrimWithoutReturns(raw);
  }

  /** What the text of a line is, taken from the line. */
  lemma {:induction false} TextOfLine(raw: string)
    requires Trim(raw) != "" && Trim(raw)[0] != '#'
    ensures ReadsAs(raw, StripInlineComment(Trim(raw)))
  {
    var left, right := TrimIs(raw);
    TextOfTrimmed(raw, left, Trim(raw), right);
  }

  lemma {:induction false} TextOfTrimmed(raw: string, left: string, s: string, right: string)
    requires raw == left + (s + right) && AllWhitespace(left) && AllWhitespace(right)
    requires s != "" && s[0] != '#' && Trimmed(s)
    ensures ReadsAs(raw, StripInlineComment(s))
  {
    var at := CommentStart(s, 0);
    if at == |s| {
      NoneStarts(s);
      assert s + (right + "") == s + right;
      assert Laid(raw, left, s, right, "");
    } else {
      var text := TrimEnd(s[..at]);
      var gap := s[..at][|text|..];
      BeforeComment(s, at);
      LaidAround(raw, left, s, right, text, gap, s[at..]);
    }
  }

  lemma {:induction false} NoneStarts(s: string)
    requires CommentStart(s, 0) == |s|
    ensures NoComment(s)
  {
    forall i | 0 < i < |s| && s[i] == ';'
      ensures !IsSpace(s[i - 1])
    {
      assert !IsComment(s, i);
    }
  }

  lemma {:induction false} LaidAround(raw: string, left: string, s: string, right: string, text: string, gap: string, comment: string)
    requires raw == left + (s + right) && s == text + gap + comment && AllWhitespace(left) && AllWhitespace(gap)
    requires IsCommentAfter(gap, comment)
    ensures Laid(raw, left, text, gap, comment + right)
  {
    assert raw == left + (text + (gap + (comment + right)));
  }

  lemma {:induction false} BeforeComment(s: string, at: nat)
    requires s != "" && s[0] != '#' && Trimmed(s) && at == CommentStart(s, 0) && at < |s|
    ensures var text := TrimEnd(s[..at]);
            && IsText(text) && s[..at] == text + s[..at][|text|..]
            && AllWhitespace(s[..at][|text|..]) && s[..at][|text|..] != "" && IsSpace(s[at - 1]) && s[at] == ';'
            && s[..at][|text|..][at - |text| - 1] == s[at - 1]
  {
    var text := TrimEnd(s[..at]);
    assert s[..at][0] == s[0];
    assert |text| < at by {
      assert IsWhitespace(s[..at][at - 1]);
    }
    forall i | 0 < i < |text| && text[i] == ';'
      ensures !IsSpace(text[i - 1])
    {
      assert !IsComment(s, i);
    }
  }

  /** Nothing is read of a blank line and of a line that starts with `#`; of any
      other line its text is. */
  lemma {:induction false} ReadLineIff(raw: string, indented: bool, text: string)
    ensures ReadLine(raw) == Some((indented, text)) <==>
            ReadsAs(raw, text) && indented == (raw != "" && IsSpace(raw[0]))
    ensures ReadLine(raw) == None <==>
            AllWhitespace(raw) || IsHashLine(raw)
  {
    TrimWithoutReturns(raw);
    if ReadsAs(raw, text) {
      ReadsText(raw, text);
    }
    if ReadLine(raw).Some? {
      TextOfLine(raw);
    }
    SkippedIff(raw);
  }

  ghost predicate IsHashLine(raw: string) {
    exists left, rest :: AllWhitespace(left) && raw == left + ("#" + rest)
  }

  lemma {:induction false} SkippedIff(raw: string)
    ensures Trim(raw) == "" <==> AllWhitespace(raw)
    ensures Trim(raw) != "" && Trim(raw)[0] == '#' <==> IsHashLine(raw)
  {
    var left, right := TrimIs(raw);
    BlankIff(raw, left, Trim(raw), right);
    HashIff(raw, left, Trim(raw), right);
  }

  lemma {:induction false} BlankIff(raw: string, left: string, text: string, right: string)
    requires raw == left + (text + right) && AllWhitespace(left) && AllWhitespace(right) && Trimmed(text)
    ensures text == "" <==> AllWhitespace(raw)
  {
    if text != "" {
      assert raw[|left|] == text[0] && raw[|left|] in raw;
    }
  }

  lemma {:induction false} HashIff(raw: string, left: string, text: string, right: string)
    requires raw == left + (text + right) && AllWhitespace(left) && AllWhitespace(right) && Trimmed(text)
    ensures text != "" && text[0] == '#' <==> IsHashLine(raw)
  {
    if text != "" && text[0] == '#' {
      assert raw == left + ("#" + (text[1..] + right));
    }
    if IsHashLine(raw) {
      var before, rest :| AllWhitespace(before) && raw == before + ("#" + rest);
      FirstVisible(raw, before, '#', rest, left, text, right);
    }
  }

  lemma {:induction false} VisibleAt(raw: string, left: string, c: char, rest: string)
    requires raw == left + ([c] + rest) && AllWhitespace(left)
    ensures |left| < |raw| && raw[|left|] == c && forall i :: 0 <= i < |left| ==> IsWhitespace(raw[i])
  {
    forall i | 0 <= i < |left|
      ensures IsWhitespace(raw[i])
    {
      assert raw[i] == left[i] && left[i] in left;
    }
  }

  /** There is one first character that is no white space. */
  lemma {:induction false} FirstVisible(raw: string, before: string, c: char, rest: string, left: string, text: string, right: string)
    requires raw == before + ([c] + rest) && AllWhitespace(before) && !IsWhitespace(c)
    requires raw == left + (text + right) && AllWhitespace(left) && AllWhitespace(right) && Trimmed(text)
    ensures text != "" && text[0] == c
  {
    VisibleAt(raw, before, c, rest);
    assert raw[|before|] in raw;
    BlankIff(raw, left, text, right);
    assert raw == left + ([text[0]] + (text[1..] + right));
    VisibleAt(raw, left, text[0], text[1..] + right);
    assert |before| == |left|;
  }

  // ---- What a line does ----

  /** The value of the key is set: in its place, or at the end. */
  ghost predicate IsSet(before: seq<(string, string)>, key: string, value: string, after: seq<(string, string)>) {
    || (exists i :: 0 <= i < |before| && before[i].0 == key && (forall j :: 0 <= j < i ==> before[j].0 != key)
                    && after == before[i := (key, value)])
    || ((forall j :: 0 <= j < |before| ==> before[j].0 != key) && after == before + [(key, value)])
  }

  lemma {:induction false} SetsEntry(entries: seq<(string, string)>, key: string, value: string)
    ensures IsSet(entries, key, value, SetEntry(entries, key, value))
    decreases |entries|
  {
    var after := SetEntry(entries, key, value);
    if entries != [] && entries[0].0 == key {
      assert after == entries[0 := (key, value)];
    } else if entries != [] {
      var rest := entries[1..];
      SetsEntry(rest, key, value);
      if i :| 0 <= i < |rest| && rest[i].0 == key && (forall j :: 0 <= j < i ==> rest[j].0 != key)
                && SetEntry(rest, key, value) == rest[i := (key, value)] {
        assert after == entries[i + 1 := (key, value)];
        assert entries[i + 1].0 == key && forall j :: 1 <= j < i + 1 ==> entries[j] == rest[j - 1];
      } else {
        assert forall j :: 1 <= j < |entries| ==> entries[j] == rest[j - 1];
        assert after == entries + [(key, value)];
      }
    }
  }

  /** Only the last section changes, and in it the value of one key. */
  ghost predicate SetsInLast(before: IniDocument, key: string, value: string, after: IniDocument) {
    && |after| == |before| > 0 && after[..|before| - 1] == before[..|before| - 1]
    && after[|before| - 1].name == before[|before| - 1].name
    && IsSet(before[|before| - 1].entries, key, value, after[|before| - 1].entries)
  }

  lemma {:induction false} ParseIs(st: State, raw: string, text: string, lineNo: nat)
    requires ReadsAs(raw, text)
    ensures raw != "" && ParseLine(st, raw, lineNo) == Interpret(st, IsSpace(raw[0]), text, lineNo)
  {
    ReadsText(raw, text);
    var left, gap, comment :| Laid(raw, left, text, gap, comment);
  }

  /** `[name]`, and anything behind the bracket, begins a section. */
  lemma {:induction false} HeaderBegins(st: State, raw: string, text: string, left: string, name: string, right: string, rest: string,
                                        lineNo: nat)
    requires ReadsAs(raw, text) && text == "[" + (left + name + right) + "]" + rest
    requires AllWhitespace(left) && AllWhitespace(right) && Trimmed(name) && ']' !in name
    requires st.current == None || !IsSpace(raw[0])
    ensures ParseLine(st, raw, lineNo) == Ok(State(st.doc + [IniSection(name, [])], None))
  {
    var inner := left + name + right;
    TrimPadded(left, name, right);
    NoBracket(left, name, right, inner);
    HeaderText(text, inner, rest);
    ParseIs(st, raw, text, lineNo);
    HeaderIs(st, IsSpace(raw[0]), text, inner, name, lineNo);
  }

  lemma {:induction false} HeaderIs(st: State, indented: bool, text: string, inner: string, name: string, lineNo: nat)
    requires text != "" && text[0] == '[' && Find(text, ']') == Some(|inner| + 1) && text[1..|inner| + 1] == inner
    requires Trim(inner) == name && (st.current == None || !indented)
    ensures Interpret(st, indented, text, lineNo) == Ok(State(st.doc + [IniSection(name, [])], None))
  {
  }

  lemma {:induction false} NoBracket(left: string, name: string, right: string, inner: string)
    requires AllWhitespace(left) && AllWhitespace(right) && ']' !in name && inner == left + name + right
    ensures ']' !in inner
  {
  }

  lemma {:induction false} HeaderText(text: string, inner: string, rest: string)
    requires text == "[" + inner + "]" + rest && ']' !in inner
    ensures Find(text, ']') == Some(|inner| + 1) && text[1..|inner| + 1] == inner
  {
    assert text == ("[" + inner) + [']'] + rest;
    FindUnique("[" + inner, ']', rest);
  }

  /** `key = value` sets the key in the last section. */
  lemma {:induction false} EntrySets(st: State, raw: string, text: string, key: string, before: string, after: string, value: string,
                                     lineNo: nat)
    requires ReadsAs(raw, text) && text == (key + before) + "=" + (after + value)
    requires AllWhitespace(before) && AllWhitespace(after) && Trimmed(key) && Trimmed(value)
    requires '=' !in key && (key == "" || key[0] != '[') && st.doc != []
    requires st.current == None || !IsSpace(raw[0])
    ensures var r := ParseLine(st, raw, lineNo);
            r.Ok? && r.value.current == Some(key) && SetsInLast(st.doc, key, value, r.value.doc)
  {
    var k, v := key + before, after + value;
    EntryText(text, key, before, k, v);
    TrimRight(key, before, k);
    TrimLeft(after, value, v);
    NoCommentBehind(text, k, v);
    StripsNothing(v);
    ParseIs(st, raw, text, lineNo);
    EntryIs(st, IsSpace(raw[0]), text, k, v, key, value, lineNo);
    SetsEntry(LastEntries(st.doc), key, value);
    LastIsSet(st.doc, key, value, SetEntry(LastEntries(st.doc), key, value));
  }

  lemma {:induction false} TrimRight(s: string, right: string, all: string)
    requires all == s + right && AllWhitespace(right) && Trimmed(s)
    ensures Trim(all) == s
  {
    assert all == "" + (s + right);
    TrimOf(all, "", s, right);
  }

  lemma {:induction false} TrimLeft(left: string, s: string, all: string)
    requires all == left + s && AllWhitespace(left) && Trimmed(s)
    ensures Trim(all) == s
  {
    assert all == left + (s + "");
    TrimOf(all, left, s, "");
  }

  lemma {:induction false} EntryIs(st: State, indented: bool, text: string, k: string, v: string, key: string, value: string, lineNo: nat)
    requires text != "" && text[0] != '[' && SplitOnce(text, '=') == Some((k, v)) && (st.current == None || !indented)
    requires Trim(k) == key && StripInlineComment(v) == v && Trim(v) == value && st.doc != []
    ensures Interpret(st, indented, text, lineNo) ==
            Ok(State(UpdateLast(st.doc, SetEntry(LastEntries(st.doc), key, value)), Some(key)))
  {
  }

  lemma {:induction false} LastIsSet(doc: IniDocument, key: string, value: string, entries: seq<(string, string)>)
    requires doc != [] && IsSet(LastEntries(doc), key, value, entries)
    ensures SetsInLast(doc, key, value, UpdateLast(doc, entries))
  {
    assert UpdateLast(doc, entries)[..|doc| - 1] == doc[..|doc| - 1];
  }

  lemma {:induction false} EntryText(text: string, key: string, before: string, k: string, v: string)
    requires k == key + before && text == k + "=" + v && AllWhitespace(before) && '=' !in key && (key == "" || key[0] != '[')
    ensures SplitOnce(text, '=') == Some((k, v)) && text[0] != '['
  {
    assert '=' !in k;
    assert text == k + ['='] + v;
    FindUnique(k, '=', v);
    assert text[..|k|] == k && text[|k| + 1..] == v;
    assert k != "" ==> k[0] == text[0] && (key == "" ==> k[0] in before);
  }

  lemma {:induction false} NoCommentBehind(text: string, k: string, v: string)
    requires text == k + "=" + v && NoComment(text)
    ensures NoComment(v)
  {
    forall i | 0 < i < |v| && v[i] == ';'
      ensures !IsSpace(v[i - 1])
    {
      assert text[|k| + 1 + i] == v[i] && text[|k| + i] == v[i - 1];
    }
  }

  /** An indented line behind an entry is one more line of its value, whatever it
      looks like. */
  lemma {:induction false} ContinuationAppends(st: State, raw: string, text: string, value: string, lineNo: nat)
    requires ReadsAs(raw, text) && IsSpace(raw[0]) && st.current.Some? && st.doc != []
    requires FirstHolds(st.doc[|st.doc| - 1].entries, st.current.value, value)
    ensures var r := ParseLine(st, raw, lineNo);
            && r.Ok? && r.value.current == st.current
            && SetsInLast(st.doc, st.current.value, if value == "" then text else value + "\n" + text, r.value.doc)
  {
    LookupIff(LastEntries(st.doc), st.current.value, value);
    ParseIs(st, raw, text, lineNo);
    TrimRight(text, "", text);
    var longer := if value == "" then text else value + "\n" + text;
    SetsEntry(LastEntries(st.doc), st.current.value, longer);
    LastIsSet(st.doc, st.current.value, longer, SetEntry(LastEntries(st.doc), st.current.value, longer));
  }

  lemma {:induction false} SkippedLine(st: State, raw: string, lineNo: nat)
    requires AllWhitespace(raw) || IsHashLine(raw)
    ensures ParseLine(st, raw, lineNo) == Ok(st)
  {
    ReadLineIff(raw, false, "");
  }

  // ---- Errors ----

  /** Why a text is an error. */
  predicate IsBadText(text: string, noSection: bool, lineNo: nat, e: ParseError)
    requires text != ""
  {
    match e
    case MissingBracket(n) => n == lineNo && text[0] == '[' && ']' !in text
    case ExpectedKeyValue(n) => n == lineNo && text[0] != '[' && '=' !in text
    case EntryBeforeSection(n) => n == lineNo && text[0] != '[' && '=' in text && noSection
  }

  /** Why a line is an error. */
  ghost predicate IsBadLine(st: State, raw: string, lineNo: nat, e: ParseError) {
    && raw != "" && (st.current == None || !IsSpace(raw[0]))
    && exists text :: ReadsAs(raw, text) && IsBadText(text, st.doc == [], lineNo, e)
  }

  lemma {:induction false} TextErrorIff(st: State, indented: bool, text: string, lineNo: nat, e: ParseError)
    requires text != ""
    ensures Interpret(st, indented, text, lineNo) == Err(e) <==>
            (st.current == None || !indented) && IsBadText(text, st.doc == [], lineNo, e)
  {
  }

  lemma {:induction false} LineErrorIff(st: State, raw: string, lineNo: nat, e: ParseError)
    ensures ParseLine(st, raw, lineNo) == Err(e) <==> IsBadLine(st, raw, lineNo, e)
  {
    if ReadLine(raw).Some? {
      var (indented, text) := ReadLine(raw).value;
      ReadLineIff(raw, indented, text);
      TextErrorIff(st, indented, text, lineNo, e);
    }
    if IsBadLine(st, raw, lineNo, e) {
      var text :| ReadsAs(raw, text) && IsBadText(text, st.doc == [], lineNo, e);
      ParseIs(st, raw, text, lineNo);
      TextErrorIff(st, IsSpace(raw[0]), text, lineNo, e);
    }
  }

  /** The line at `k` is bad, and all before it are read. */
  ghost predicate FirstBad(line: LineParser, st: State, lines: seq<string>, lineNo: nat, k: nat, e: ParseError) {
    && k < |lines|
    && var before := ParseLines(line, st, lines[..k], lineNo);
       before.Ok? && IsBadLine(before.value, lines[k], lineNo + k, e)
  }

  lemma {:induction false} FirstBadFails(line: LineParser, st: State, lines: seq<string>, lineNo: nat, k: nat, e: ParseError)
    requires RoundTrip.Faithful(line) && FirstBad(line, st, lines, lineNo, k, e)
    ensures ParseLines(line, st, lines, lineNo) == Err(e)
  {
    var mid := ParseLines(line, st, lines[..k], lineNo).value;
    assert lines == lines[..k] + lines[k..];
    RoundTrip.Chain(line, st, lines[..k], lines[k..], lineNo, mid);
    FailsAtOnce(line, mid, lines[k], lines[k..], lineNo + k, e);
  }

  lemma {:induction false} FailsAtOnce(line: LineParser, st: State, raw: string, lines: seq<string>, lineNo: nat, e: ParseError)
    requires RoundTrip.Faithful(line) && lines != [] && lines[0] == raw && IsBadLine(st, raw, lineNo, e)
    ensures ParseLines(line, st, lines, lineNo) == Err(e)
  {
    LineErrorIff(st, raw, lineNo, e);
    assert line(st, raw, lineNo) == ParseLine(st, raw, lineNo);
  }

  lemma {:induction false} FailsAtFirstBad(line: LineParser, st: State, lines: seq<string>, lineNo: nat, e: ParseError)
    returns (k: nat)
    requires RoundTrip.Faithful(line) && ParseLines(line, st, lines, lineNo) == Err(e)
    ensures FirstBad(line, st, lines, lineNo, k, e)
    decreases |lines|
  {
    LineErrorIff(st, lines[0], lineNo, e);
    assert line(st, lines[0], lineNo) == ParseLine(st, lines[0], lineNo);
    if line(st, lines[0], lineNo).Err? {
      k := 0;
      assert lines[..0] == [];
    } else {
      k := FailsAtFirstBad(line, line(st, lines[0], lineNo).value, lines[1..], lineNo + 1, e);
      assert lines[..k + 1][1..] == lines[1..][..k] && lines[..k + 1][0] == lines[0];
      k := k + 1;
    }
  }

  ghost predicate HasBadLine(line: LineParser, st: State, lines: seq<string>, e: ParseError) {
    exists k :: FirstBad(line, st, lines, 1, k, e)
  }

  lemma {:induction false} LinesErrorIff(line: LineParser, st: State, lines: seq<string>, e: ParseError)
    requires RoundTrip.Faithful(line)
    ensures ParseLines(line, st, lines, 1) == Err(e) <==> HasBadLine(line, st, lines, e)
  {
    if ParseLines(line, st, lines, 1) == Err(e) {
      var k := FailsAtFirstBad(line, st, lines, 1, e);
    }
    if HasBadLine(line, st, lines, e) {
      var k :| FirstBad(line, st, lines, 1, k, e);
      FirstBadFails(line, st, lines, 1, k, e);
    }
  }

  lemma {:induction false} ParseByLines(input: string, outcome: Result<State, ParseError>)
    requires outcome == ParseLines(LineOf(), State([], None), Lines(input), 1)
    ensures Parse(input) == if outcome.Ok? then Ok(outcome.value.doc) else Err(outcome.error)
  {
  }

  /** A file is an error exactly for its first bad line; lines count from 1, and
      those behind it do not matter. */
  lemma {:induction false} ParseErrorIff(input: string, e: ParseError)
    ensures Parse(input) == Err(e) <==> HasBadLine(LineOf(), State([], None), Lines(input), e)
  {
    var outcome := ParseLines(LineOf(), State([], None), Lines(input), 1);
    LinesErrorIff(LineOf(), State([], None), Lines(input), e);
    ParseByLines(input, outcome);
  }
}
