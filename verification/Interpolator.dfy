/**
 The variable interpolation engine: a depth-bounded evaluator for `%(name)s`,
 `%%` and nested `<...>` tags.

 `Expand` is the evaluator as a function of the text, the depth it starts at
 and the depth limit; the methods below it are the evaluator as written, with
 its loops over the character iterator.
 */
module Interpolator {
  import opened Prelude
  import opened Text
  import opened Ini

  const MAX_DEPTH: nat := 10

  datatype Context = Context(
    doc: IniDocument,
    defaults: map<string, string>,
    builtins: map<string, string>,
    currentSection: Option<string>,
    init: map<string, string>,
    known: map<string, string>)

  datatype Error =
    | RecursionLimit
    | ExpectedParen
    | UnterminatedVariable
    | UnknownVariable(key: string)
    | MalformedTag(tag: string)
    | UnknownTag(tag: string)

  function Required(v: Option<string>, error: Error): Result<string, Error> {
    match v
    case Some(x) => Ok(x)
    case None => Err(error)
  }

  /** The raw value of a `%(key)s` reference. */
  function LookupPercent(key: string, ctx: Context): Result<string, Error> {
    if StartsWith(key, "default/") then
      var rest := key[|"default/"|..];
      Required(OrElse(Get(ctx.defaults, rest), Get(ctx.builtins, rest)), UnknownVariable(key))
    else if StartsWith(key, "known/") then
      var rest := key[|"known/"|..];
      Required(OrElse(Get(ctx.known, rest), Get(ctx.init, rest)), UnknownVariable(key))
    else
      match SplitOnce(key, '/')
      case Some((section, parameter)) =>
        Required(Value(ctx.doc, section, parameter), UnknownVariable(key))
      case None =>
        var here := if ctx.currentSection.Some? then Value(ctx.doc, ctx.currentSection.value, key) else None;
        Required(OrElse(here, OrElse(Get(ctx.defaults, key), Get(ctx.builtins, key))), UnknownVariable(key))
  }

  /** `<lt_...>` and `<ipt_...>`: a section chosen by a variable; an absent
      section or parameter is the empty text. */
  function DynamicSection(prefix: string, tag: string, rest: string, ctx: Context): Result<Option<string>, Error> {
    match SplitOnce(rest, '/')
    case None => Err(MalformedTag(tag))
    case Some((variable, parameter)) =>
      var selector := match OrElse(Get(ctx.init, variable), Get(ctx.defaults, variable))
        case Some(v) => v
        case None => variable;
      match Value(ctx.doc, prefix + selector, parameter)
      case Some(v) => Ok(Some(v))
      case None => Ok(Some(""))
  }

  /** The value of a tag whose own text needs no more expansion: `Ok(None)`
      when it is not an interpolation tag. */
  function TagValue(tag: string, ctx: Context): Result<Option<string>, Error> {
    if StartsWith(tag, "known/") then
      var rest := tag[|"known/"|..];
      match OrElse(Get(ctx.init, rest), Get(ctx.known, rest))
      case Some(v) => Ok(Some(v))
      case None => Err(UnknownTag(tag))
    else if StartsWith(tag, "lt_") then DynamicSection("lt_", tag, tag[|"lt_"|..], ctx)
    else if StartsWith(tag, "ipt_") then DynamicSection("ipt_", tag, tag[|"ipt_"|..], ctx)
    else Ok(OrElse(Get(ctx.init, tag), OrElse(Get(ctx.defaults, tag), Get(ctx.builtins, tag))))
  }

  /** All the evaluator needs of its context: what a variable name and a tag
      stand for. */
  datatype Lookups = Lookups(
    percent: string -> Result<string, Error>,
    tag: string -> Result<Option<string>, Error>)

  function LookupsOf(ctx: Context): Lookups {
    Lookups(name => LookupPercent(Trim(name), ctx), tag => TagValue(tag, ctx))
  }

  // ---- Reading one item ----

  /** What the scan finds at the front of a text. */
  datatype Item =
    | Plain(c: char, rest: string)
    | Escape(rest: string)
    | Variable(name: string, s: bool, rest: string)
    | Tag(tag: string, rest: string)
    | Unclosed(text: string, rest: string)
    | Malformed(error: Error, rest: string)

  function Nesting(c: char, nested: nat): nat
    requires c == '>' ==> nested > 0
  {
    if c == '<' then nested + 1 else if c == '>' then nested - 1 else nested
  }

  /** Where the tag opened just before `t` closes, `nested` inner tags being open. */
  function CloseIndex(t: string, nested: nat): (r: Option<nat>)
    ensures r.Some? ==> r.value < |t| && t[r.value] == '>'
  {
    if t == "" then None
    else if t[0] == '>' && nested == 0 then Some(0)
    else
      Shift(1, CloseIndex(t[1..], Nesting(t[0], nested)))
  }

  function Shift(n: nat, r: Option<nat>): Option<nat> {
    match r
    case None => None
    case Some(i) => Some(n + i)
  }

  /** The first item of `s`. An `s` after `%(name)` is consumed when present. */
  function Next(s: string): (item: Item)
    requires s != ""
    ensures |item.rest| < |s|
  {
    var t := s[1..];
    if s[0] == '%' then
      if t != "" && t[0] == '%' then Escape(t[1..])
      else if t == "" || t[0] != '(' then Malformed(ExpectedParen, "")
      else
        match Find(t[1..], ')')
        case None => Malformed(UnterminatedVariable, "")
        case Some(j) =>
          var after := t[1..][j + 1..];
          var hasS := after != "" && after[0] == 's';
          Variable(t[1..][..j], hasS, if hasS then after[1..] else after)
    else if s[0] == '<' then
      match CloseIndex(t, 0)
      case None => Unclosed(t, "")
      case Some(j) => Tag(t[..j], t[j + 1..])
    else Plain(s[0], t)
  }

  // ---- The evaluator as a function ----

  function Prepend(out: string, r: Result<string, Error>): Result<string, Error> {
    match r
    case Ok(v) => Ok(out + v)
    case Err(e) => Err(e)
  }

  /** The evaluator started at `depth`. */
  function Expand(s: string, env: Lookups, depth: nat, limit: nat): Result<string, Error>
    decreases if depth > limit then 0 else limit + 1 - depth, |s| + 1
  {
    if depth > limit then Err(RecursionLimit) else Scan(s, env, depth, limit)
  }

  /** `lookup_tag`: the tag is looked up under its own text with nested tags expanded. */
  function LookupTag(tag: string, env: Lookups, depth: nat, limit: nat): Result<Option<string>, Error>
    requires depth <= limit
    decreases limit + 1 - depth, 0, 0
  {
    var key :- if '<' in tag then Expand(tag, env, depth + 1, limit) else Ok(tag);
    env.tag(key)
  }

  /** What the first item contributes to the output. */
  function Piece(item: Item, env: Lookups, depth: nat, limit: nat): Result<string, Error>
    requires depth <= limit
    decreases limit + 1 - depth, 0, 1
  {
    match item
    case Plain(c, _) => Ok([c])
    case Escape(_) => Ok("%")
    case Unclosed(text, _) => Ok("<" + text)
    case Malformed(e, _) => Err(e)
    case Variable(name, _, _) =>
      var value :- env.percent(name);
      Expand(value, env, depth + 1, limit)
    case Tag(tag, _) =>
      var value :- LookupTag(tag, env, depth, limit);
      match value
      case Some(v) => Expand(v, env, depth + 1, limit)
      case None => Ok("<" + tag + ">")
  }

  /** The scan of `s` at a depth within the limit. */
  function Scan(s: string, env: Lookups, depth: nat, limit: nat): Result<string, Error>
    requires depth <= limit
    decreases limit + 1 - depth, |s|, 2
  {
    if s == "" then Ok("")
    else
      var piece :- Piece(Next(s), env, depth, limit);
      Prepend(piece, Scan(Next(s).rest, env, depth, limit))
  }

  // ---- The evaluator as written ----

  /** Reads from the iterator up to `end`, which it consumes. */
  method ReadUntil(chars: string, end: char) returns (r: Option<string>, rest: string)
    ensures match Find(chars, end)
            case None => r == None
            case Some(j) => r == Some(chars[..j]) && rest == chars[j + 1..]
  {
    var s := "";
    rest := chars;
    while rest != ""
      invariant chars == s + rest && end !in s
      decreases |rest|
    {
      var c := rest[0];
      rest := rest[1..];
      if c == end {
        FindUnique(s, end, rest);
        assert chars == s + [end] + rest;
        return Some(s), rest;
      }
      s := s + [c];
    }
    r := None;
  }

  lemma {:induction false} CloseStep(t: string, nested: nat, read: nat)
    requires t != ""
    ensures Shift(read, CloseIndex(t, nested)) ==
            if t[0] == '>' && nested == 0 then Some(read)
            else Shift(read + 1, CloseIndex(t[1..], Nesting(t[0], nested)))
  {
  }

  /** Reads a tag body up to its own `>`. */
  method ReadTag(chars: string) returns (tag: string, found: bool, rest: string)
    ensures match CloseIndex(chars, 0)
            case None => !found && tag == chars && rest == ""
            case Some(j) => found && tag == chars[..j] && rest == chars[j + 1..]
  {
    ghost var close := CloseIndex(chars, 0);
    tag := "";
    var nested: nat := 0;
    rest := chars;
    while rest != ""
      invariant chars == tag + rest
      invariant close == Shift(|tag|, CloseIndex(rest, nested))
      decreases |rest|
    {
      CloseStep(rest, nested, |tag|);
      Advance(chars, tag, rest);
      if rest[0] == '>' && nested == 0 {
        return tag, true, rest[1..];
      }
      nested := Nesting(rest[0], nested);
      tag := tag + [rest[0]];
      rest := rest[1..];
    }
    found := false;
  }

  /** Takes the first item off the iterator. */
  method ReadItem(chars: string) returns (item: Item)
    requires chars != ""
    ensures item == Next(chars)
  {
    var c, rest := chars[0], chars[1..];
    if c == '%' && rest != "" && rest[0] == '%' {
      item := Escape(rest[1..]);
    } else if c == '%' {
      if rest == "" || rest[0] != '(' {
        return Malformed(ExpectedParen, "");
      }
      var name, after := ReadUntil(rest[1..], ')');
      if name.None? {
        return Malformed(UnterminatedVariable, "");
      }
      var hasS := after != "" && after[0] == 's';
      if hasS {
        after := after[1..];
      }
      item := Variable(name.value, hasS, after);
    } else if c == '<' {
      var tag, found, after := ReadTag(rest);
      item := if found then Tag(tag, after) else Unclosed(tag, after);
    } else {
      item := Plain(c, rest);
    }
  }

  lemma {:induction false} PrependTwice(a: string, b: string, r: Result<string, Error>)
    ensures Prepend(a, Prepend(b, r)) == Prepend(a + b, r)
  {
    if r.Ok? {
      assert a + (b + r.value) == a + b + r.value;
    }
  }

  method ResolveTag(tag: string, env: Lookups, depth: nat) returns (r: Result<Option<string>, Error>)
    requires depth <= MAX_DEPTH
    ensures r == LookupTag(tag, env, depth, MAX_DEPTH)
    decreases MAX_DEPTH + 1 - depth, 0
  {
    var key := tag;
    if '<' in tag {
      var inner := InterpolateInner(tag, env, depth + 1);
      if inner.Err? {
        return Err(inner.error);
      }
      key := inner.value;
    }
    r := env.tag(key);
  }

  method InterpolateInner(input: string, env: Lookups, depth: nat) returns (r: Result<string, Error>)
    requires depth <= MAX_DEPTH + 1
    ensures r == Expand(input, env, depth, MAX_DEPTH)
    decreases MAX_DEPTH + 1 - depth, 2
  {
    if depth > MAX_DEPTH {
      return Err(RecursionLimit);
    }
    var out := "";
    var chars := input;
    assert forall v: string :: "" + v == v;
    while chars != ""
      invariant Scan(input, env, depth, MAX_DEPTH) == Prepend(out, Scan(chars, env, depth, MAX_DEPTH))
      decreases |chars|
    {
      var item := ReadItem(chars);
      var resolved := "";
      match item {
        case Plain(c, _) => resolved := [c];
        case Escape(_) => resolved := "%";
        case Unclosed(text, _) => resolved := "<" + text;
        case Malformed(e, _) => return Err(e);
        case Variable(name, _, _) =>
          var value := env.percent(name);
          if value.Err? {
            return Err(value.error);
          }
          var v := InterpolateInner(value.value, env, depth + 1);
          if v.Err? {
            return v;
          }
          resolved := v.value;
        case Tag(tag, _) =>
          var value := ResolveTag(tag, env, depth);
          if value.Err? {
            return Err(value.error);
          }
          if value.value.Some? {
            var v := InterpolateInner(value.value.value, env, depth + 1);
            if v.Err? {
              return v;
            }
            resolved := v.value;
          } else {
            resolved := "<" + tag + ">";
          }
      }
      PrependTwice(out, resolved, Scan(item.rest, env, depth, MAX_DEPTH));
      out := out + resolved;
      chars := item.rest;
    }
    assert out + "" == out;
    r := Ok(out);
  }
}
