/**
 Compiling the text of a pattern tree gives the tree's own translation, exactly
 when no tag is nested inside itself.
 */
module TagPatterns {
  import opened Prelude
  import opened Text
  import opened Tags

  /** A pattern as its author means it: characters, single tags, and pair tags
      around a pattern, each followed by the rest. */
  datatype Pattern =
    | End
    | Character(c: string, rest: Pattern)
    | Single(tag: FTag, rest: Pattern)
    | Pair(tag: FTag, body: Pattern, rest: Pattern)
  {
    predicate Valid() {
      match this
      case End => true
      case Character(c, rest) => IsCharacter(c) && rest.Valid()
      case Single(tag, rest) => !tag.IsPair() && rest.Valid()
      case Pair(tag, body, rest) => tag.IsPair() && body.Valid() && rest.Valid()
    }

    function Render(): string {
      match this
      case End => ""
      case Character(c, rest) => c + rest.Render()
      case Single(tag, rest) => Opening(tag) + rest.Render()
      case Pair(tag, body, rest) => Opening(tag) + (body.Render() + (Closing(tag) + rest.Render()))
    }

    function Translate(): string {
      match this
      case End => ""
      case Character(c, rest) => c + rest.Translate()
      case Single(tag, rest) => GroupOf(tag) + rest.Translate()
      case Pair(tag, body, rest) => "(?P<" + GroupOf(tag) + ">" + body.Translate() + ")" + rest.Translate()
    }

    /** The tags that are inside no other. */
    function TopTags(): seq<FTag> {
      match this
      case End => []
      case Character(_, rest) => [] + rest.TopTags()
      case Single(tag, rest) => [tag] + rest.TopTags()
      case Pair(tag, _, rest) => [tag] + rest.TopTags()
    }

    predicate HasPair(t: FTag) {
      match this
      case End => false
      case Character(_, rest) => rest.HasPair(t)
      case Single(_, rest) => rest.HasPair(t)
      case Pair(tag, body, rest) => tag == t || body.HasPair(t) || rest.HasPair(t)
    }

    /** No tag is inside itself, at any depth. */
    predicate NoSelfNesting() {
      match this
      case End => true
      case Character(_, rest) => rest.NoSelfNesting()
      case Single(_, rest) => rest.NoSelfNesting()
      case Pair(tag, body, rest) => !body.HasPair(tag) && body.NoSelfNesting() && rest.NoSelfNesting()
    }
  }

  /** How each tag is written. */
  function Word(tag: FTag): string {
    match tag
    case Host => "HOST"
    case Addr => "ADDR"
    case FUser => "F-USER"
    case FAltUser => "F-ALT_USER"
    case FNoFail => "F-NOFAIL"
    case FMlfid => "F-MLFID"
    case FMlfforget => "F-MLFFORGET"
    case FMlfgained => "F-MLFGAINED"
    case FContent => "F-CONTENT"
  }

  /** The name of the group that a pair tag becomes; the whole group that a
      single tag becomes. */
  function GroupOf(tag: FTag): string {
    match tag
    case Host => @"(?P<host>(?:::f{4,6}:)?[\w\-.^_]*\w)"
    case Addr => @"(?P<addr>[\w\-.^_]*)"
    case FUser => "user"
    case FAltUser => "alt_user"
    case FNoFail => "nofail"
    case FMlfid => "mlfid"
    case FMlfforget => "mlfforget"
    case FMlfgained => "mlfgained"
    case FContent => "content"
  }

  /** No two tags become groups of one name. */
  lemma {:induction false} GroupsDiffer(a: FTag, b: FTag)
    requires GroupOf(a) == GroupOf(b)
    ensures a == b
  {
    var s, t := GroupOf(a), GroupOf(b);
    assert |s| == |t| && s[0] == t[0] && s[1] == t[1] && s[|s| / 2] == t[|t| / 2] && s[|s| - 1] == t[|t| - 1];
  }

  /** The body of a pair can be told from the translation. */
  lemma {:induction false} BodyIsKept(tag: FTag, body: Pattern, other: Pattern, rest: Pattern)
    requires Pair(tag, body, rest).Translate() == Pair(tag, other, rest).Translate()
    ensures body.Translate() == other.Translate()
  {
    SameMiddle("(?P<" + GroupOf(tag) + ">", body.Translate(), other.Translate(), ")", rest.Translate());
  }

  lemma {:induction false} SameMiddle(a: string, b: string, c: string, d: string, e: string)
    requires a + b + d + e == a + c + d + e
    ensures b == c
  {
    var s := a + b + d + e;
    assert |b| == |c|;
    assert b == s[|a|..|a| + |b|] && c == s[|a|..|a| + |c|];
  }

  /** The compiler knows the tags by these words and makes these groups. */
  lemma {:induction false} Spelling(tag: FTag, inner: string)
    ensures Opening(tag) == "<" + Word(tag) + ">" && Closing(tag) == "</" + Word(tag) + ">"
    ensures tag.Regex(inner) == if tag.Host? || tag.Addr? then GroupOf(tag) else "(?P<" + GroupOf(tag) + ">" + inner + ")"
  {
  }

  /** One character of literal text. */
  predicate IsCharacter(c: string) {
    c != "" && c[0] != '<' && WellFormed(c) && |c| == Utf8Len(c[0])
  }

  // ---- Places ----

  lemma {:induction false} OccursLater(a: string, b: string, pat: string, k: nat)
    requires k >= |a|
    ensures OccursAt(a + b, pat, k) <==> OccursAt(b, pat, k - |a|)
  {
    if k <= |a + b| {
      assert (a + b)[k..] == b[k - |a|..];
    }
  }

  lemma {:induction false} OccursEarlier(a: string, b: string, pat: string, k: nat)
    requires k + |pat| <= |a|
    ensures OccursAt(a + b, pat, k) <==> OccursAt(a, pat, k)
  {
    assert (a + b)[k..] == a[k..] + b;
  }

  lemma {:induction false} CharAt(s: string, pat: string, k: nat, i: nat)
    requires OccursAt(s, pat, k) && i < |pat|
    ensures k + i < |s| && s[k + i] == pat[i]
  {
    assert s[k..][i] == pat[i];
  }

  predicate StartsIn(a: string, b: string, pat: string, k: nat) {
    k < |a| && OccursAt(a + b, pat, k)
  }

  /** `pat` never starts inside `a`, whatever follows. */
  ghost predicate Free(a: string, pat: string) {
    forall b, k: nat :: !StartsIn(a, b, pat, k)
  }

  ghost predicate Contains(a: string, pat: string) {
    exists k: nat :: OccursAt(a, pat, k)
  }

  /** `open` comes before any place in `a` where `pat` can start. */
  ghost predicate Guarded(a: string, open: string, pat: string) {
    forall b, k: nat :: StartsIn(a, b, pat, k) ==> k <= |a| && Contains(a[..k], open)
  }

  lemma {:induction false} ContainsLater(a: string, b: string, pat: string)
    requires Contains(b, pat)
    ensures Contains(a + b, pat)
  {
    var k: nat :| OccursAt(b, pat, k);
    OccursLater(a, b, pat, |a| + k);
    assert OccursAt(a + b, pat, |a| + k);
  }

  lemma {:induction false} ContainsEarlier(a: string, b: string, pat: string)
    requires Contains(a, pat)
    ensures Contains(a + b, pat)
  {
    var k: nat :| OccursAt(a, pat, k);
    OccursEarlier(a, b, pat, k);
    assert OccursAt(a + b, pat, k);
  }

  lemma {:induction false} FreeConcat(a: string, b: string, pat: string)
    requires Free(a, pat) && Free(b, pat)
    ensures Free(a + b, pat)
  {
    forall c, k: nat
      ensures !StartsIn(a + b, c, pat, k)
    {
      assert (a + b) + c == a + (b + c);
      if k < |a| {
        assert !StartsIn(a, b + c, pat, k);
      } else {
        OccursLater(a, b + c, pat, k);
        assert !StartsIn(b, c, pat, k - |a|);
      }
    }
  }

  lemma {:induction false} GuardedConcat(a: string, b: string, open: string, pat: string)
    requires Guarded(a, open, pat) && Guarded(b, open, pat)
    ensures Guarded(a + b, open, pat)
  {
    forall c, k: nat | StartsIn(a + b, c, pat, k)
      ensures Contains((a + b)[..k], open)
    {
      assert (a + b) + c == a + (b + c);
      if k < |a| {
        assert StartsIn(a, b + c, pat, k);
        assert (a + b)[..k] == a[..k];
      } else {
        OccursLater(a, b + c, pat, k);
        assert StartsIn(b, c, pat, k - |a|);
        ContainsLater(a, b[..k - |a|], open);
        assert (a + b)[..k] == a + b[..k - |a|];
      }
    }
  }

  lemma {:induction false} GuardedByOpening(open: string, a: string, pat: string)
    requires Free(open, pat)
    ensures Guarded(open + a, open, pat)
  {
    forall c, k: nat | StartsIn(open + a, c, pat, k)
      ensures Contains((open + a)[..k], open)
    {
      assert (open + a) + c == open + (a + c);
      assert !StartsIn(open, a + c, pat, k);
      assert (open + a)[..k] == open + a[..k - |open|];
      assert (open + a)[..k][0..] == (open + a)[..k];
      assert OccursAt((open + a)[..k], open, 0);
    }
  }

  // ---- Tags as text ----

  lemma {:induction false} OpeningChars(t: FTag, i: nat)
    requires i < |Opening(t)|
    ensures Opening(t)[i] == '<' <==> i == 0
    ensures Opening(t)[i] == '>' <==> i == |Opening(t)| - 1
    ensures i == 1 ==> Opening(t)[i] != '/'
    ensures Opening(t)[i] as int < 0x80
  {
    var name := t.Name();
    assert 1 <= i <= |name| ==> Opening(t)[i] == name[i - 1] && name[i - 1] in name;
  }

  lemma {:induction false} ClosingChars(t: FTag, i: nat)
    requires i < |Closing(t)|
    ensures Closing(t)[i] == '<' <==> i == 0
    ensures Closing(t)[i] == '>' <==> i == |Closing(t)| - 1
    ensures i == 1 ==> Closing(t)[i] == '/'
    ensures Closing(t)[i] as int < 0x80
  {
    var name := t.Name();
    assert 2 <= i <= |name| + 1 ==> Closing(t)[i] == name[i - 2] && name[i - 2] in name;
  }

  /** Two closing tags that start at one place are the same. */
  lemma {:induction false} SameClosing(t: FTag, u: FTag, s: string)
    requires OccursAt(Closing(u) + s, Closing(t), 0)
    ensures t == u
  {
    var a, b := Closing(t), Closing(u);
    var last := Min(|a|, |b|) - 1;
    CharAt(b + s, a, 0, last);
    ClosingChars(t, last);
    ClosingChars(u, last);
    assert |a| == |b|;
    assert (b + s)[0..] == b + s;
    assert a == (b + s)[..|a|] == b;
    assert t.Name() == a[2..|a| - 1] == b[2..|b| - 1] == u.Name();
    NamesDiffer(t, u);
  }

  lemma {:induction false} CharacterFree(c: string, t: FTag)
    requires IsCharacter(c)
    ensures Free(c, Closing(t))
  {
    forall b, k: nat
      ensures !StartsIn(c, b, Closing(t), k)
    {
      ClosingChars(t, 0);
      if StartsIn(c, b, Closing(t), k) {
        CharAt(c + b, Closing(t), k, 0);
      }
    }
  }

  lemma {:induction false} OpeningFree(u: FTag, t: FTag)
    ensures Free(Opening(u), Closing(t))
  {
    forall b, k: nat
      ensures !StartsIn(Opening(u), b, Closing(t), k)
    {
      if StartsIn(Opening(u), b, Closing(t), k) {
        CharAt(Opening(u) + b, Closing(t), k, 0);
        CharAt(Opening(u) + b, Closing(t), k, 1);
        ClosingChars(t, 0);
        ClosingChars(t, 1);
        OpeningChars(u, k);
        OpeningChars(u, 1);
      }
    }
  }

  lemma {:induction false} ClosingFree(u: FTag, t: FTag)
    requires u != t
    ensures Free(Closing(u), Closing(t))
  {
    forall b, k: nat
      ensures !StartsIn(Closing(u), b, Closing(t), k)
    {
      if StartsIn(Closing(u), b, Closing(t), k) {
        CharAt(Closing(u) + b, Closing(t), k, 0);
        ClosingChars(t, 0);
        ClosingChars(u, k);
        SameClosing(t, u, b);
      }
    }
  }

  // ---- Rendered text is well-formed ----

  lemma {:induction false} WellFormedConcat(a: string, b: string)
    requires WellFormed(a) && WellFormed(b)
    ensures WellFormed(a + b)
    decreases |a|
  {
    if a == "" {
      assert a + b == b;
    } else {
      var n := Utf8Len(a[0]);
      WellFormedConcat(a[n..], b);
      FirstKept(a, b, n, a + b);
    }
  }

  lemma {:induction false} FirstKept(a: string, b: string, n: nat, s: string)
    requires s == a + b && n <= |a|
    ensures s[n..] == a[n..] + b
    ensures forall i :: 0 <= i < n ==> s[i] == a[i]
  {
  }

  lemma {:induction false} AsciiWellFormed(s: string)
    requires forall i :: 0 <= i < |s| ==> s[i] as int < 0x80
    ensures WellFormed(s)
    decreases |s|
  {
    if s != "" {
      AsciiWellFormed(s[1..]);
    }
  }

  lemma {:induction false} TagsWellFormed(t: FTag)
    ensures WellFormed(Opening(t)) && WellFormed(Closing(t))
  {
    forall i: nat | i < |Opening(t)|
      ensures Opening(t)[i] as int < 0x80
    {
      OpeningChars(t, i);
    }
    forall i: nat | i < |Closing(t)|
      ensures Closing(t)[i] as int < 0x80
    {
      ClosingChars(t, i);
    }
    AsciiWellFormed(Opening(t));
    AsciiWellFormed(Closing(t));
  }

  lemma {:induction false} RenderWellFormed(p: Pattern)
    requires p.Valid()
    ensures WellFormed(p.Render())
  {
    match p
    case End =>
    case Character(c, rest) =>
      RenderWellFormed(rest);
      WellFormedConcat(c, rest.Render());
    case Single(tag, rest) =>
      RenderWellFormed(rest);
      TagsWellFormed(tag);
      WellFormedConcat(Opening(tag), rest.Render());
    case Pair(tag, body, rest) =>
      RenderWellFormed(body);
      RenderWellFormed(rest);
      TagsWellFormed(tag);
      WellFormedConcat(Closing(tag), rest.Render());
      WellFormedConcat(body.Render(), Closing(tag) + rest.Render());
      WellFormedConcat(Opening(tag), body.Render() + (Closing(tag) + rest.Render()));
  }

  // ---- Closing tags in rendered text ----

  lemma {:induction false} ClosingOnlyOfPairs(p: Pattern, t: FTag)
    requires p.Valid() && !p.HasPair(t)
    ensures Free(p.Render(), Closing(t))
  {
    match p
    case End =>
    case Character(c, rest) =>
      CharacterFree(c, t);
      ClosingOnlyOfPairs(rest, t);
      FreeConcat(c, rest.Render(), Closing(t));
    case Single(tag, rest) =>
      OpeningFree(tag, t);
      ClosingOnlyOfPairs(rest, t);
      FreeConcat(Opening(tag), rest.Render(), Closing(t));
    case Pair(tag, body, rest) =>
      OpeningFree(tag, t);
      ClosingFree(tag, t);
      ClosingOnlyOfPairs(body, t);
      ClosingOnlyOfPairs(rest, t);
      FreeConcat(Closing(tag), rest.Render(), Closing(t));
      FreeConcat(body.Render(), Closing(tag) + rest.Render(), Closing(t));
      FreeConcat(Opening(tag), body.Render() + (Closing(tag) + rest.Render()), Closing(t));
  }

  lemma {:induction false} FreeIsGuarded(a: string, open: string, pat: string)
    requires Free(a, pat)
    ensures Guarded(a, open, pat)
  {
  }

  lemma {:induction false} ClosingAfterOpening(p: Pattern, t: FTag)
    requires p.Valid()
    ensures Guarded(p.Render(), Opening(t), Closing(t))
  {
    match p
    case End =>
    case Character(c, rest) =>
      CharacterFree(c, t);
      FreeIsGuarded(c, Opening(t), Closing(t));
      ClosingAfterOpening(rest, t);
      GuardedConcat(c, rest.Render(), Opening(t), Closing(t));
    case Single(tag, rest) =>
      OpeningFree(tag, t);
      FreeIsGuarded(Opening(tag), Opening(t), Closing(t));
      ClosingAfterOpening(rest, t);
      GuardedConcat(Opening(tag), rest.Render(), Opening(t), Closing(t));
    case Pair(tag, body, rest) =>
      OpeningFree(tag, t);
      if tag == t {
        GuardedByOpening(Opening(tag), body.Render() + (Closing(tag) + rest.Render()), Closing(t));
      } else {
        ClosingFree(tag, t);
        ClosingAfterOpening(body, t);
        ClosingAfterOpening(rest, t);
        GuardedTogether(Opening(tag), body.Render(), Closing(tag), rest.Render(), Opening(t), Closing(t));
      }
  }

  lemma {:induction false} GuardedTogether(a: string, b: string, c: string, d: string, open: string, pat: string)
    requires Free(a, pat) && Guarded(b, open, pat) && Free(c, pat) && Guarded(d, open, pat)
    ensures Guarded(a + (b + (c + d)), open, pat)
  {
    FreeIsGuarded(a, open, pat);
    FreeIsGuarded(c, open, pat);
    GuardedConcat(c, d, open, pat);
    GuardedConcat(b, c + d, open, pat);
    GuardedConcat(a, b + (c + d), open, pat);
  }

  lemma {:induction false} PairCloses(p: Pattern, t: FTag)
    requires p.HasPair(t)
    ensures Contains(p.Render(), Closing(t))
  {
    match p
    case Character(c, rest) =>
      PairCloses(rest, t);
      ContainsLater(c, rest.Render(), Closing(t));
    case Single(tag, rest) =>
      PairCloses(rest, t);
      ContainsLater(Opening(tag), rest.Render(), Closing(t));
    case Pair(tag, body, rest) =>
      if body.HasPair(t) {
        PairCloses(body, t);
        ContainsEarlier(body.Render(), Closing(tag) + rest.Render(), Closing(t));
      } else if tag == t {
        ContainsItself(Closing(t));
        ContainsEarlier(Closing(tag), rest.Render(), Closing(t));
        ContainsLater(body.Render(), Closing(tag) + rest.Render(), Closing(t));
      } else {
        PairCloses(rest, t);
        ContainsLater(Closing(tag), rest.Render(), Closing(t));
        ContainsLater(body.Render(), Closing(tag) + rest.Render(), Closing(t));
      }
      ContainsLater(Opening(tag), body.Render() + (Closing(tag) + rest.Render()), Closing(t));
  }

  lemma {:induction false} ContainsItself(a: string)
    ensures Contains(a, a)
  {
    assert a[0..] == a;
    assert OccursAt(a, a, 0);
  }

  // ---- Text with an opening tag and no closing tag does not compile ----

  lemma {:induction false} MatchOpening(t: FTag, after: string, s: string)
    requires s == Opening(t) + after && WellFormed(s) && WellFormed(after)
    ensures s[|Opening(t)|..] == after
    ensures MatchTag(s) == if t.IsPair() then MatchPair(s, t, |Opening(t)|)
                           else Ok(Some(TagMatch(t, "", |Opening(t)|)))
  {
    OpeningName(t.Name(), after, s);
    TagOfName(t);
  }

  lemma {:induction false} OpeningName(name: string, after: string, s: string)
    requires s == "<" + name + ">" + after && '>' !in name
    ensures Find(s[1..], '>') == Some(|name|) && s[1..|name| + 1] == name
  {
    assert s[1..] == name + ['>'] + after;
    FindUnique(name, '>', after);
  }

  /** What a match has read. */
  lemma {:induction false} MatchShape(s: string, m: TagMatch)
    requires WellFormed(s) && MatchTag(s) == Ok(Some(m))
    ensures IsMatch(s, m)
    ensures s == Opening(m.tag)
              + if m.tag.IsPair() then m.inner + (Closing(m.tag) + s[m.end..]) else s[m.end..]
  {
    var tag, openLen := MatchedOpening(s, m);
  }

  lemma {:induction false} MatchedOpening(s: string, m: TagMatch) returns (tag: FTag, openLen: nat)
    requires WellFormed(s) && MatchTag(s) == Ok(Some(m))
    ensures 0 < openLen <= |s| && WellFormed(s[openLen..]) && s == Opening(tag) + s[openLen..]
    ensures if tag.IsPair() then MatchPair(s, tag, openLen) == Ok(Some(m)) else m == TagMatch(tag, "", openLen)
    ensures m.tag == tag && IsMatch(s, m)
  {
    var openEnd := Find(s[1..], '>').value;
    SplitOpening(s, openEnd);
    AfterAscii(s, openEnd + 1);
    tag, openLen := TagOf(s[1..openEnd + 1]).value, openEnd + 2;
  }

  lemma {:induction false} SplitOpening(s: string, openEnd: nat)
    requires openEnd + 1 < |s| && s[0] == '<' && s[openEnd + 1] == '>'
    ensures s == "<" + s[1..openEnd + 1] + ">" + s[openEnd + 2..]
  {
  }

  lemma {:induction false} ContainsAfter(a: string, b: string, pat: string)
    requires Free(a, pat) && Contains(a + b, pat)
    ensures Contains(b, pat)
  {
    var k: nat :| OccursAt(a + b, pat, k);
    assert !StartsIn(a, b, pat, k);
    OccursLater(a, b, pat, k);
  }

  lemma {:induction false} OpeningNotInClosing(u: FTag, t: FTag)
    ensures Free(Closing(u), Opening(t))
  {
    forall b, k: nat
      ensures !StartsIn(Closing(u), b, Opening(t), k)
    {
      if StartsIn(Closing(u), b, Opening(t), k) {
        CharAt(Closing(u) + b, Opening(t), k, 0);
        CharAt(Closing(u) + b, Opening(t), k, 1);
        OpeningChars(t, 0);
        OpeningChars(t, 1);
        ClosingChars(u, k);
        ClosingChars(u, 1);
      }
    }
  }

  lemma {:induction false} SameOpening(t: FTag, u: FTag, s: string)
    requires OccursAt(Opening(u) + s, Opening(t), 0)
    ensures t == u
  {
    var a, b := Opening(t), Opening(u);
    var last := Min(|a|, |b|) - 1;
    CharAt(b + s, a, 0, last);
    OpeningChars(t, last);
    OpeningChars(u, last);
    assert |a| == |b|;
    assert (b + s)[0..] == b + s;
    assert a == (b + s)[..|a|] == b;
    assert t.Name() == a[1..|a| - 1] == b[1..|b| - 1] == u.Name();
    NamesDiffer(t, u);
  }

  lemma {:induction false} OtherOpeningFree(u: FTag, t: FTag)
    requires u != t
    ensures Free(Opening(u), Opening(t))
  {
    forall b, k: nat
      ensures !StartsIn(Opening(u), b, Opening(t), k)
    {
      if StartsIn(Opening(u), b, Opening(t), k) {
        CharAt(Opening(u) + b, Opening(t), k, 0);
        OpeningChars(t, 0);
        OpeningChars(u, k);
        SameOpening(t, u, b);
      }
    }
  }

  /** An opening tag does not run into a closing tag. */
  lemma {:induction false} OpeningOnOneSide(inner: string, u: FTag, rest: string, t: FTag)
    requires Contains(inner + (Closing(u) + rest), Opening(t)) && !Contains(inner, Opening(t))
    ensures Contains(rest, Opening(t))
  {
    var open, tail := Opening(t), Closing(u) + rest;
    var k: nat :| OccursAt(inner + tail, open, k);
    if k + |open| <= |inner| {
      OccursEarlier(inner, tail, open, k);
    } else if k < |inner| {
      CharAt(inner + tail, open, k, |inner| - k);
      assert (inner + tail)[|inner|] == '<';
      OpeningChars(t, |inner| - k);
    } else {
      OccursLater(inner, tail, open, k);
      OpeningNotInClosing(u, t);
      ContainsAfter(Closing(u), rest, open);
    }
  }

  lemma {:induction false} NoMatchWithoutClosing(s: string, m: TagMatch, t: FTag)
    requires WellFormed(s) && MatchTag(s) == Ok(Some(m)) && t.IsPair() && !Contains(s, Closing(t))
    ensures m.tag != t
  {
    MatchShape(s, m);
    if m.tag == t {
      ContainsItself(Closing(t));
      ContainsEarlier(Closing(t), s[m.end..], Closing(t));
      ContainsLater(m.inner, Closing(t) + s[m.end..], Closing(t));
      ContainsLater(Opening(t), m.inner + (Closing(t) + s[m.end..]), Closing(t));
    }
  }

  lemma {:induction false} FirstIsNoOpening(s: string, t: FTag)
    requires WellFormed(s) && t.IsPair() && MatchTag(s) == Ok(None)
    ensures !OccursAt(s, Opening(t), 0)
  {
    if OccursAt(s, Opening(t), 0) {
      var n := |Opening(t)|;
      SplitAt(s, Opening(t), 0);
      BoundaryAfterOpening(s, t, s[n..]);
      MatchOpening(t, s[n..], s);
    }
  }

  lemma {:induction false} BoundaryAfterOpening(s: string, t: FTag, after: string)
    requires s == Opening(t) + after && WellFormed(s)
    ensures WellFormed(after)
  {
    var last := |Opening(t)| - 1;
    OpeningChars(t, last);
    AfterAscii(s, last);
    assert s[last + 1..] == after;
  }

  lemma {:induction false} OpeningAfterCharacter(s: string, t: FTag, n: nat)
    requires s != "" && WellFormed(s) && n == Utf8Len(s[0])
    requires Contains(s, Opening(t)) && !OccursAt(s, Opening(t), 0)
    ensures Contains(s[n..], Opening(t))
  {
    var k: nat :| OccursAt(s, Opening(t), k);
    CharAt(s, Opening(t), k, 0);
    OpeningChars(t, 0);
    CharacterEnds(s, k);
    OccursAfter(s, Opening(t), n, k);
  }

  lemma {:induction false} CharacterEnds(s: string, k: nat)
    requires WellFormed(s) && 0 < k < |s| && s[k] == '<'
    ensures k >= Utf8Len(s[0])
  {
  }

  lemma {:induction false} OccursAfter(s: string, pat: string, n: nat, k: nat)
    requires n <= k && OccursAt(s, pat, k)
    ensures Contains(s[n..], pat)
  {
    assert s[n..][k - n..] == s[k..];
    assert OccursAt(s[n..], pat, k - n);
  }

  lemma {:induction false} NonEmpty(s: string, t: FTag)
    requires Contains(s, Opening(t))
    ensures s != ""
  {
    var k: nat :| OccursAt(s, Opening(t), k);
    CharAt(s, Opening(t), k, 0);
  }

  lemma {:induction false} Unclosed(s: string, t: FTag)
    requires WellFormed(s) && t.IsPair() && Contains(s, Opening(t)) && !Contains(s, Closing(t))
    ensures Compile(s).Err?
    decreases |s|
  {
    var matched := MatchTag(s);
    if matched.Err? {
      CompileError(s);
    } else if matched.value.Some? {
      UnclosedTag(s, matched.value.value, t);
    } else {
      UnclosedCharacter(s, t);
    }
  }

  lemma {:induction false} UnclosedCharacter(s: string, t: FTag)
    requires WellFormed(s) && t.IsPair() && Contains(s, Opening(t)) && !Contains(s, Closing(t))
    requires MatchTag(s) == Ok(None)
    ensures Compile(s).Err?
    decreases |s|, 0
  {
    NonEmpty(s, t);
    var n := Utf8Len(s[0]);
    FirstIsNoOpening(s, t);
    OpeningAfterCharacter(s, t, n);
    NotInSuffix(s, n, Closing(t));
    Unclosed(s[n..], t);
    CompileCharacter(s);
  }

  lemma {:induction false} NotInSuffix(s: string, n: nat, pat: string)
    requires n <= |s| && !Contains(s, pat)
    ensures !Contains(s[n..], pat)
  {
    assert s == s[..n] + s[n..];
    NotContainsLater(s[..n], s[n..], s, pat);
  }

  lemma {:induction false} CompileError(s: string)
    requires WellFormed(s) && MatchTag(s).Err?
    ensures Compile(s).Err?
  {
  }

  lemma {:induction false} NotContainsLater(a: string, b: string, s: string, pat: string)
    requires s == a + b && !Contains(s, pat)
    ensures !Contains(b, pat)
  {
    if Contains(b, pat) {
      ContainsLater(a, b, pat);
    }
  }

  lemma {:induction false} NotContainsInside(a: string, b: string, c: string, s: string, pat: string)
    requires s == a + (b + c) && !Contains(s, pat)
    ensures !Contains(b, pat)
  {
    if Contains(b, pat) {
      ContainsEarlier(b, c, pat);
      ContainsLater(a, b + c, pat);
    }
  }

  /** The opening tag is inside another pair or behind it. */
  lemma {:induction false} InsideOrBehind(inner: string, u: FTag, rest: string, s: string, t: FTag)
    requires s == Opening(u) + (inner + (Closing(u) + rest)) && u != t
    requires Contains(s, Opening(t)) && !Contains(s, Closing(t))
    ensures Contains(inner, Opening(t)) || Contains(rest, Opening(t))
    ensures !Contains(inner, Closing(t))
  {
    OtherOpeningFree(u, t);
    ContainsAfter(Opening(u), inner + (Closing(u) + rest), Opening(t));
    if !Contains(inner, Opening(t)) {
      OpeningOnOneSide(inner, u, rest, t);
    }
    NotContainsInside(Opening(u), inner, Closing(u) + rest, s, Closing(t));
  }

  lemma {:induction false} UnclosedTag(s: string, m: TagMatch, t: FTag)
    requires WellFormed(s) && t.IsPair() && Contains(s, Opening(t)) && !Contains(s, Closing(t))
    requires MatchTag(s) == Ok(Some(m))
    ensures Compile(s).Err?
    decreases |s|, 0
  {
    MatchShape(s, m);
    NoMatchWithoutClosing(s, m, t);
    CompileTag(s, m, Expand(m.tag, m.inner));
    var rest := s[m.end..];
    NotInSuffix(s, m.end, Closing(t));
    if m.tag.IsPair() {
      InsideOrBehind(m.inner, m.tag, rest, s, t);
      if Contains(m.inner, Opening(t)) {
        Unclosed(m.inner, t);
      } else {
        Unclosed(rest, t);
      }
    } else {
      OtherOpeningFree(m.tag, t);
      ContainsAfter(Opening(m.tag), rest, Opening(t));
      Unclosed(rest, t);
    }
  }

  // ---- Patterns compile to their translation ----

  lemma {:induction false} CompileSingle(t: FTag, rest: string, s: string)
    requires s == Opening(t) + rest && WellFormed(s) && WellFormed(rest) && !t.IsPair()
    ensures Compile(s) == Prepend(t.Regex(""), [t], Compile(rest))
  {
    MatchOpening(t, rest, s);
    CompileTag(s, TagMatch(t, "", |Opening(t)|), Expand(t, ""));
  }

  lemma {:induction false} CompileLiteral(c: string, rest: string, s: string)
    requires s == c + rest && WellFormed(s) && WellFormed(rest) && IsCharacter(c)
    ensures Compile(s) == Prepend(c, [], Compile(rest))
  {
    CompileCharacter(s);
    assert s[..|c|] == c && s[|c|..] == rest;
  }

  /** The closing tag that is found first is the right one. */
  lemma {:induction false} FindsOwnClosing(body: string, close: string, rest: string)
    requires close != "" && Free(body, close)
    ensures FindText(body + (close + rest), close) == Some(|body|)
  {
    var s := body + (close + rest);
    assert (close + rest)[0..] == close + rest;
    OccursLater(body, close + rest, close, |body|);
    forall k: nat | k < |body|
      ensures !OccursAt(s, close, k)
    {
      assert !StartsIn(body, close + rest, close, k);
    }
  }

  lemma {:induction false} MatchWholePair(t: FTag, body: string, rest: string, s: string) returns (m: TagMatch)
    requires t.IsPair() && s == Opening(t) + (body + (Closing(t) + rest)) && WellFormed(s)
    requires Free(body, Closing(t))
    ensures MatchTag(s) == Ok(Some(m)) && IsMatch(s, m)
    ensures m.tag == t && m.inner == body && s[m.end..] == rest
  {
    var after := body + (Closing(t) + rest);
    BoundaryAfterOpening(s, t, after);
    MatchOpening(t, after, s);
    FindsOwnClosing(body, Closing(t), rest);
    m := MatchPair(s, t, |Opening(t)|).value.value;
    SamePrefix(body, m.inner, Closing(t), rest, s[m.end..]);
  }

  lemma {:induction false} SamePrefix(a: string, b: string, c: string, d: string, e: string)
    requires a + (c + d) == b + (c + e) && |a| == |b|
    ensures a == b && d == e
  {
    assert a == (a + (c + d))[..|a|] && b == (b + (c + e))[..|a|];
    assert d == (a + (c + d))[|a| + |c|..] && e == (b + (c + e))[|a| + |c|..];
  }

  /** With another closing tag in the body, the text is cut after an opening tag
      that is left unclosed. */
  lemma {:induction false} MatchCutsEarly(t: FTag, body: string, rest: string, s: string) returns (m: TagMatch)
    requires t.IsPair() && s == Opening(t) + (body + (Closing(t) + rest)) && WellFormed(s)
    requires Contains(body, Closing(t)) && Guarded(body, Opening(t), Closing(t))
    ensures MatchTag(s) == Ok(Some(m)) && IsMatch(s, m)
    ensures m.tag == t && Contains(m.inner, Opening(t)) && !Contains(m.inner, Closing(t))
  {
    var after := body + (Closing(t) + rest);
    BoundaryAfterOpening(s, t, after);
    MatchOpening(t, after, s);
    var pos := CutsEarly(body, Opening(t), Closing(t), Closing(t) + rest);
    m := MatchPair(s, t, |Opening(t)|).value.value;
    assert m.inner == after[..pos];
  }

  lemma {:induction false} CutsEarly(body: string, open: string, close: string, rest: string) returns (pos: nat)
    requires close != "" && Contains(body, close) && Guarded(body, open, close)
    ensures FindText(body + rest, close) == Some(pos) && pos <= |body + rest|
    ensures Contains((body + rest)[..pos], open) && !Contains((body + rest)[..pos], close)
  {
    var s := body + rest;
    var k: nat :| OccursAt(body, close, k);
    OccursEarlier(body, rest, close, k);
    pos := FindText(s, close).value;
    assert StartsIn(body, rest, close, pos);
    assert s[..pos] == body[..pos];
    assert s == s[..pos] + s[pos..];
    forall j: nat
      ensures !OccursAt(s[..pos], close, j)
    {
      if j + |close| <= pos {
        OccursEarlier(s[..pos], s[pos..], close, j);
      }
    }
  }

  lemma {:induction false} SelfNestedPairFails(t: FTag, body: string, rest: string, s: string)
    requires t.IsPair() && s == Opening(t) + (body + (Closing(t) + rest)) && WellFormed(s)
    requires Contains(body, Closing(t)) && Guarded(body, Opening(t), Closing(t))
    ensures Compile(s).Err?
  {
    var m := MatchCutsEarly(t, body, rest, s);
    Unclosed(m.inner, t);
    CompileTag(s, m, Expand(t, m.inner));
  }

  lemma {:induction false} CompilePair(t: FTag, body: string, rest: string, s: string)
    requires t.IsPair() && s == Opening(t) + (body + (Closing(t) + rest)) && WellFormed(s)
    requires WellFormed(body) && WellFormed(rest) && Free(body, Closing(t))
    ensures Compile(s) == match Compile(body)
                          case Err(e) => Err(e)
                          case Ok(c) => Prepend(t.Regex(c.pattern), [t], Compile(rest))
  {
    var m := MatchWholePair(t, body, rest, s);
    CompileTag(s, m, Expand(t, m.inner));
  }

  /** The text of a pattern compiles exactly when no tag is inside itself, and
      then gives the translation and the top-level tags in order. */
  lemma {:induction false} CompilesIffNotSelfNested(p: Pattern)
    requires p.Valid()
    ensures WellFormed(p.Render())
    ensures Compile(p.Render()).Ok? <==> p.NoSelfNesting()
    ensures p.NoSelfNesting() ==> Compile(p.Render()) == Ok(Compiled(p.Translate(), p.TopTags()))
  {
    RenderWellFormed(p);
    match p
    case End =>
    case Character(c, rest) =>
      CompilesIffNotSelfNested(rest);
      CompileLiteral(c, rest.Render(), p.Render());
    case Single(tag, rest) =>
      CompilesIffNotSelfNested(rest);
      CompileSingle(tag, rest.Render(), p.Render());
      Spelling(tag, "");
    case Pair(tag, body, rest) =>
      CompilesIffNotSelfNested(body);
      CompilesIffNotSelfNested(rest);
      if body.HasPair(tag) {
        PairCloses(body, tag);
        ClosingAfterOpening(body, tag);
        SelfNestedPairFails(tag, body.Render(), rest.Render(), p.Render());
      } else {
        ClosingOnlyOfPairs(body, tag);
        CompilePair(tag, body.Render(), rest.Render(), p.Render());
        if body.NoSelfNesting() {
          Spelling(tag, body.Translate());
        }
      }
  }

  // ---- Other text ----

  lemma {:induction false} WordIsName(tag: FTag)
    ensures tag.Name() == Word(tag)
  {
  }

  lemma {:induction false} NoSuchTag(name: string)
    requires forall tag: FTag :: name != Word(tag)
    ensures TagOf(name) == None
  {
    var r := TagOf(name);
    if r.Some? {
      WordIsName(r.value);
      assert false;
    }
  }

  /** A tag of another name is text. */
  lemma {:induction false} UnknownTagIsText(name: string, rest: string, s: string)
    requires s == "<" + name + ">" + rest && WellFormed(s) && '>' !in name && forall tag: FTag :: name != Word(tag)
    ensures WellFormed(s[1..]) && Compile(s) == Prepend("<", [], Compile(s[1..]))
  {
    OpeningName(name, rest, s);
    AfterAscii(s, 0);
    AfterAscii(s, |name| + 1);
    NoSuchTag(name);
    CompileCharacter(s);
    assert s[..1] == "<";
  }

  /** A `<` with no `>` behind it is an error, and so is an opening tag of a pair
      with no closing tag behind it. */
  lemma {:induction false} WhichError(s: string, tag: FTag, after: string)
    requires WellFormed(s)
    ensures s == "<" + after && '>' !in after ==> Compile(s) == Err(Unterminated)
    ensures s == "<" + Word(tag) + ">" + after && tag.IsPair() && !Contains(after, "</" + Word(tag) + ">") ==>
              Compile(s) == Err(MissingClosing(Word(tag)))
  {
    Spelling(tag, "");
    if s == "<" + after && '>' !in after {
      assert s[1..] == after;
    } else if s == Opening(tag) + after && tag.IsPair() && !Contains(after, Closing(tag)) {
      BoundaryAfterOpening(s, tag, after);
      MatchOpening(tag, after, s);
      WordIsName(tag);
    }
  }

  /** Text without `<` is copied. */
  lemma {:induction false} TextIsCopied(text: string, rest: string, s: string)
    requires s == text + rest && WellFormed(text) && WellFormed(rest) && '<' !in text
    ensures WellFormed(s) && Compile(s) == Prepend(text, [], Compile(rest))
    decreases |text|
  {
    WellFormedConcat(text, rest);
    if text == "" {
      assert s == rest;
      PrependNothing(Compile(rest));
    } else {
      var n := Utf8Len(text[0]);
      var c, more := text[..n], text[n..];
      assert text[0] in text && text == c + more;
      FirstCharacter(text, n);
      TextIsCopied(more, rest, more + rest);
      OneCharacterMore(c, more, rest, text, s);
    }
  }

  lemma {:induction false} OneCharacterMore(c: string, more: string, rest: string, text: string, s: string)
    requires text == c + more && s == text + rest && WellFormed(s) && WellFormed(rest) && IsCharacter(c)
    requires WellFormed(more + rest) && Compile(more + rest) == Prepend(more, [], Compile(rest))
    ensures Compile(s) == Prepend(text, [], Compile(rest))
  {
    SameText(c, more, rest, text, s);
    CompileLiteral(c, more + rest, s);
    PrependTexts(c, more, text, Compile(rest));
  }

  lemma {:induction false} SameText(c: string, more: string, rest: string, text: string, s: string)
    requires text == c + more && s == text + rest
    ensures s == c + (more + rest)
  {
  }

  lemma {:induction false} PrependTexts(a: string, b: string, text: string, r: Result<Compiled, TagError>)
    requires text == a + b
    ensures Prepend(a, [], Prepend(b, [], r)) == Prepend(text, [], r)
  {
    PrependTwice(a, [], b, [], r);
    if r.Ok? {
      assert [] + r.value.tags == r.value.tags;
    }
  }

  lemma {:induction false} FirstCharacter(text: string, n: nat)
    requires text != "" && WellFormed(text) && text[0] != '<' && n == Utf8Len(text[0])
    ensures IsCharacter(text[..n])
  {
    assert text[..n][n..] == "";
  }

  // ---- UTF-8 ----

  /** The bytes of a code point. */
  function Encode(n: nat): (s: string)
    requires n < 0x11_0000
  {
    if n < 0x80 then [n as char]
    else if n < 0x800 then [(0xC0 + n / 0x40) as char, (0x80 + n % 0x40) as char]
    else if n < 0x1_0000 then
      [(0xE0 + n / 0x1000) as char, (0x80 + n / 0x40 % 0x40) as char, (0x80 + n % 0x40) as char]
    else
      [(0xF0 + n / 0x4_0000) as char, (0x80 + n / 0x1000 % 0x40) as char, (0x80 + n / 0x40 % 0x40) as char,
       (0x80 + n % 0x40) as char]
  }

  /** Every code point but `<` is one character of literal text. */
  lemma {:induction false} CodePointIsCharacter(n: nat)
    requires n < 0x11_0000
    ensures WellFormed(Encode(n)) && |Encode(n)| == Utf8Len(Encode(n)[0])
    ensures n != 0x3C ==> IsCharacter(Encode(n))
  {
    var s := Encode(n);
    assert s[|s|..] == "";
  }
}
