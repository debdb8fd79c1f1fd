/**
 The tag compiler: `<HOST>`, `<ADDR>` and `<F-X>...</F-X>` become regex groups.
 Text is UTF-8; a byte is written as the character of its value.
 */
module Tags {
  import opened Prelude
  import opened Text

  datatype FTag = Host | Addr | FUser | FAltUser | FNoFail | FMlfid | FMlfforget | FMlfgained | FContent {
    /** A tag with a closing tag. */
    predicate IsPair() {
      !Host? && !Addr?
    }

    /** `FTag::name` */
    function Name(): (name: string)
      ensures name != "" && name[0] != '/'
      ensures forall c <- name :: c as int < 0x80 && c != '<' && c != '>'
    {
      match this
      case Host => "HOST"
      case Addr => "ADDR"
      case FUser => "F-USER"
      case FAltUser => "F-ALT_USER"
      case FNoFail => "F-NOFAIL"
      case FMlfid => "F-MLFID"
      case FMlfforget => "F-MLFFORGET"
      case FMlfgained => "F-MLFGAINED"
      case FContent => "F-CONTENT"
    }

    /** The regex that a tag becomes; a pair tag becomes a group around `inner`. */
    function Regex(inner: string): string {
      if Host? then HOST_REGEX else if Addr? then ADDR_REGEX else Group(GroupName(), inner)
    }

    function GroupName(): string {
      match this
      case Host => "host"
      case Addr => "addr"
      case FUser => "user"
      case FAltUser => "alt_user"
      case FNoFail => "nofail"
      case FMlfid => "mlfid"
      case FMlfforget => "mlfforget"
      case FMlfgained => "mlfgained"
      case FContent => "content"
    }
  }

  const HOST_REGEX := @"(?P<host>(?:::f{4,6}:)?[\w\-.^_]*\w)"
  const ADDR_REGEX := @"(?P<addr>[\w\-.^_]*)"

  function Group(name: string, inner: string): string {
    "(?P<" + name + ">" + inner + ")"
  }

  datatype TagError = Unterminated | MissingClosing(name: string)

  datatype Compiled = Compiled(pattern: string, tags: seq<FTag>)

  datatype TagMatch = TagMatch(tag: FTag, inner: string, end: nat)

  // ---- UTF-8 ----

  function Utf8Len(b: char): nat {
    if b as int < 0xC0 then 1 else if b as int < 0xE0 then 2 else if b as int < 0xF0 then 3 else 4
  }

  predicate IsContinuation(b: char) {
    0x80 <= b as int < 0xC0
  }

  /** Whole characters only: what a string slice of the host language holds. */
  predicate WellFormed(s: string) {
    s == "" ||
    var n := Utf8Len(s[0]);
    && !IsContinuation(s[0])
    && n <= |s|
    && (n > 1 ==> IsContinuation(s[1])) && (n > 2 ==> IsContinuation(s[2])) && (n > 3 ==> IsContinuation(s[3]))
    && WellFormed(s[n..])
  }

  /** A place before a byte that starts a character is a character boundary. */
  lemma {:induction false} Boundary(s: string, k: nat)
    requires WellFormed(s) && k <= |s| && (k == |s| || !IsContinuation(s[k]))
    ensures WellFormed(s[..k]) && WellFormed(s[k..])
    decreases |s|
  {
    if k > 0 {
      var n := Utf8Len(s[0]);
      assert n <= k;
      Boundary(s[n..], k - n);
      assert s[n..][k - n..] == s[k..];
      assert s[..k][n..] == s[n..][..k - n];
    } else {
      assert s[0..] == s;
    }
  }

  lemma {:induction false} AfterAscii(s: string, k: nat)
    requires WellFormed(s) && k < |s| && s[k] as int < 0x80
    ensures WellFormed(s[..k]) && WellFormed(s[k..]) && WellFormed(s[k + 1..])
  {
    Boundary(s, k);
    assert s[k..][1..] == s[k + 1..];
  }

  // ---- Matching one tag ----

  predicate OccursAt(s: string, pat: string, k: nat) {
    k <= |s| && pat <= s[k..]
  }

  /** `str::find(&str)` */
  function FindText(s: string, pat: string): (r: Option<nat>)
    requires pat != ""
    ensures r.None? ==> forall k: nat :: !OccursAt(s, pat, k)
    ensures r.Some? ==> OccursAt(s, pat, r.value) && forall k: nat :: k < r.value ==> !OccursAt(s, pat, k)
  {
    if s == "" then None
    else if OccursAt(s, pat, 0) then Some(0)
    else
      LaterOccurrences(s, pat);
      match FindText(s[1..], pat)
      case None => None
      case Some(k) => Some(k + 1)
  }

  lemma {:induction false} LaterOccurrences(s: string, pat: string)
    requires s != ""
    ensures forall k: nat :: k > 0 ==> OccursAt(s, pat, k) == OccursAt(s[1..], pat, k - 1)
  {
    forall k: nat | 0 < k <= |s|
      ensures OccursAt(s, pat, k) == OccursAt(s[1..], pat, k - 1)
    {
      assert s[1..][k - 1..] == s[k..];
    }
  }

  function Opening(tag: FTag): string {
    "<" + tag.Name() + ">"
  }

  function Closing(tag: FTag): string {
    "</" + tag.Name() + ">"
  }

  const ALL_TAGS: seq<FTag> := [FAltUser, FMlfforget, FMlfgained, FMlfid, FContent, FNoFail, FUser, Host, Addr]

  function FirstNamed(tags: seq<FTag>, name: string): (r: Option<FTag>)
    ensures r.Some? ==> r.value.Name() == name
    ensures r.None? ==> forall t <- tags :: t.Name() != name
  {
    if tags == [] then None else if tags[0].Name() == name then Some(tags[0]) else FirstNamed(tags[1..], name)
  }

  function TagOf(name: string): Option<FTag> {
    FirstNamed(ALL_TAGS, name)
  }

  lemma {:induction false} NamesDiffer(a: FTag, b: FTag)
    requires a.Name() == b.Name()
    ensures a == b
  {
    var s, t := a.Name(), b.Name();
    assert |s| == |t| && s[0] == t[0] && s[|s| - 1] == t[|t| - 1] && s[|s| / 2] == t[|t| / 2];
  }

  lemma {:induction false} TagOfName(tag: FTag)
    ensures TagOf(tag.Name()) == Some(tag)
  {
    assert tag in ALL_TAGS;
    NamesDiffer(tag, TagOf(tag.Name()).value);
  }

  /** `match_tag`: the tag at the start of `s`, if there is one. */
  function MatchTag(s: string): (r: Result<Option<TagMatch>, TagError>)
    requires WellFormed(s)
    ensures r.Ok? && r.value.Some? ==> IsMatch(s, r.value.value)
  {
    if s == "" || s[0] != '<' then Ok(None)
    else
      match Find(s[1..], '>')
      case None => Err(Unterminated)
      case Some(openEnd) =>
        assert s[openEnd + 1] == '>';
        AfterAscii(s, openEnd + 1);
        match TagOf(s[1..openEnd + 1])
        case None => Ok(None)
        case Some(tag) =>
          if !tag.IsPair() then Ok(Some(TagMatch(tag, "", openEnd + 2)))
          else
            var r := MatchPair(s, tag, openEnd + 2);
            if r.Ok? then
              PairBoundaries(s[openEnd + 2..], tag, r.value.value.inner, s[r.value.value.end..]);
              r
            else r
  }

  /** The pair tag whose opening tag is `s[..openLen]`. */
  function MatchPair(s: string, tag: FTag, openLen: nat): (r: Result<Option<TagMatch>, TagError>)
    requires 0 < openLen <= |s|
    ensures r.Ok? ==> r.value.Some? && IsPairMatch(s, tag, openLen, r.value.value)
  {
    var afterOpen := s[openLen..];
    match FindText(afterOpen, Closing(tag))
    case None => Err(MissingClosing(tag.Name()))
    case Some(pos) =>
      SplitAt(afterOpen, Closing(tag), pos);
      var end := openLen + pos + |Closing(tag)|;
      SuffixOfSuffix(s, openLen, pos + |Closing(tag)|);
      Ok(Some(TagMatch(tag, afterOpen[..pos], end)))
  }

  predicate IsPairMatch(s: string, tag: FTag, openLen: nat, m: TagMatch)
    requires openLen <= |s|
  {
    && m.tag == tag
    && 0 < m.end <= |s| && |m.inner| < |s|
    && s[openLen..] == m.inner + (Closing(tag) + s[m.end..])
  }

  lemma {:induction false} SplitAt(s: string, pat: string, k: nat)
    requires OccursAt(s, pat, k)
    ensures s == s[..k] + (pat + s[k + |pat|..])
  {
    assert s[k..] == pat + s[k..][|pat|..];
    assert s[k..][|pat|..] == s[k + |pat|..];
  }

  lemma {:induction false} SuffixOfSuffix(s: string, i: nat, j: nat)
    requires i + j <= |s|
    ensures s[i..][j..] == s[i + j..]
  {
  }

  predicate IsMatch(s: string, m: TagMatch) {
    0 < m.end <= |s| && |m.inner| < |s| && WellFormed(m.inner) && WellFormed(s[m.end..])
  }

  lemma {:induction false} PairBoundaries(s: string, tag: FTag, inner: string, rest: string)
    requires s == inner + (Closing(tag) + rest) && WellFormed(s)
    ensures WellFormed(inner) && WellFormed(rest)
  {
    ClosingAt(s, Closing(tag), inner, rest);
    BoundariesAround(s, |inner|, |inner| + |Closing(tag)| - 1, inner, rest);
  }

  lemma {:induction false} BoundariesAround(s: string, first: nat, last: nat, inner: string, rest: string)
    requires WellFormed(s) && first < last < |s| && s[first] == '<' && s[last] == '>'
    requires s[..first] == inner && s[last + 1..] == rest
    ensures WellFormed(inner) && WellFormed(rest)
  {
    AfterAscii(s, first);
    AfterAscii(s, last);
  }

  lemma {:induction false} ClosingAt(s: string, close: string, inner: string, rest: string)
    requires s == inner + (close + rest) && |close| > 1
    ensures s[|inner|] == close[0] && s[|inner| + |close| - 1] == close[|close| - 1]
    ensures s[..|inner|] == inner && s[|inner| + |close|..] == rest
  {
  }

  // ---- Compiling ----

  function Prepend(text: string, tags: seq<FTag>, r: Result<Compiled, TagError>): Result<Compiled, TagError> {
    match r
    case Err(e) => Err(e)
    case Ok(c) => Ok(Compiled(text + c.pattern, tags + c.tags))
  }

  function Compile(s: string): Result<Compiled, TagError>
    requires WellFormed(s)
    decreases |s|, 1
  {
    if s == "" then Ok(Compiled("", []))
    else
      match MatchTag(s)
      case Err(e) => Err(e)
      case Ok(Some(m)) =>
        var group :- Expand(m.tag, m.inner);
        Prepend(group, [m.tag], Compile(s[m.end..]))
      case Ok(None) =>
        var n := Utf8Len(s[0]);
        Prepend(s[..n], [], Compile(s[n..]))
  }

  /** `expand_tag` */
  function Expand(tag: FTag, inner: string): Result<string, TagError>
    requires WellFormed(inner)
    decreases |inner|, 2
  {
    if !tag.IsPair() then Ok(tag.Regex(""))
    else
      var c :- Compile(inner);
      Ok(tag.Regex(c.pattern))
  }

  method CompileTags(input: string) returns (r: Result<Compiled, TagError>)
    requires WellFormed(input)
    ensures r == Compile(input)
    decreases |input|, 1
  {
    var out, tags, rest := "", [], input;
    PrependNothing(Compile(input));
    while rest != ""
      invariant WellFormed(rest)
      invariant Compile(input) == Prepend(out, tags, Compile(rest))
      decreases |rest|
    {
      var next := CompileNext(rest);
      if next.Err? {
        return Err(next.error);
      }
      var Step(text, found, n) := next.value;
      PrependTwice(out, tags, text, found, Compile(rest[n..]));
      out, tags, rest := out + text, tags + found, rest[n..];
    }
    CompileEnd(out, tags);
    r := Ok(Compiled(out, tags));
  }

  /** What one iteration writes, reports and reads. */
  datatype Step = Step(text: string, tags: seq<FTag>, length: nat)

  ghost predicate IsStep(s: string, step: Result<Step, TagError>)
    requires WellFormed(s)
  {
    match step
    case Err(e) => Compile(s) == Err(e)
    case Ok(Step(text, tags, n)) =>
      0 < n <= |s| && WellFormed(s[n..]) && Compile(s) == Prepend(text, tags, Compile(s[n..]))
  }

  /** One iteration: the tag at the start of `s`, or one character. */
  method CompileNext(s: string) returns (r: Result<Step, TagError>)
    requires s != "" && WellFormed(s)
    ensures IsStep(s, r)
    decreases |s|, 0
  {
    if s[0] == '<' {
      var matched := MatchTag(s);
      match matched {
        case Err(e) =>
          return Err(e);
        case Ok(Some(m)) =>
          var group := ExpandTag(m.tag, m.inner);
          CompileTag(s, m, group);
          match group {
            case Err(e) => return Err(e);
            case Ok(text) => return Ok(Step(text, [m.tag], m.end));
          }
        case Ok(None) =>
      }
    }
    CompileCharacter(s);
    var n := Utf8Len(s[0]);
    r := Ok(Step(s[..n], [], n));
  }

  lemma {:induction false} CompileTag(s: string, m: TagMatch, group: Result<string, TagError>)
    requires WellFormed(s) && MatchTag(s) == Ok(Some(m)) && group == Expand(m.tag, m.inner)
    ensures Compile(s) == match group
                          case Err(e) => Err(e)
                          case Ok(text) => Prepend(text, [m.tag], Compile(s[m.end..]))
  {
  }

  lemma {:induction false} CompileCharacter(s: string)
    requires s != "" && WellFormed(s) && MatchTag(s) == Ok(None)
    ensures var n := Utf8Len(s[0]); Compile(s) == Prepend(s[..n], [], Compile(s[n..]))
  {
  }

  lemma {:induction false} CompileEnd(out: string, tags: seq<FTag>)
    ensures Prepend(out, tags, Compile("")) == Ok(Compiled(out, tags))
  {
    assert out + "" == out && tags + [] == tags;
  }

  method ExpandTag(tag: FTag, inner: string) returns (r: Result<string, TagError>)
    requires WellFormed(inner)
    ensures r == Expand(tag, inner)
    decreases |inner|, 2
  {
    if !tag.IsPair() {
      return Ok(tag.Regex(""));
    }
    var c := CompileTags(inner);
    match c {
      case Err(e) => r := Err(e);
      case Ok(compiled) => r := Ok(tag.Regex(compiled.pattern));
    }
  }

  lemma {:induction false} PrependTwice(a: string, x: seq<FTag>, b: string, y: seq<FTag>, r: Result<Compiled, TagError>)
    ensures Prepend(a, x, Prepend(b, y, r)) == Prepend(a + b, x + y, r)
  {
    if r.Ok? {
      assert a + (b + r.value.pattern) == (a + b) + r.value.pattern;
      assert x + (y + r.value.tags) == (x + y) + r.value.tags;
    }
  }

  lemma {:induction false} PrependNothing(r: Result<Compiled, TagError>)
    ensures Prepend("", [], r) == r
  {
    if r.Ok? {
      assert "" + r.value.pattern == r.value.pattern;
      assert [] + r.value.tags == r.value.tags;
    }
  }
}
