/** Where each form of reference reads, and where two forms disagree. */
module InterpolatorLookups {
  import opened Prelude
  import opened Text
  import opened Ini
  import opened Interpolator
  import Semantics = InterpolatorSemantics

  function Found(r: Result<string, Error>): Option<string> {
    match r
    case Ok(v) => Some(v)
    case Err(_) => None
  }

  function FoundTag(r: Result<Option<string>, Error>): Option<string> {
    match r
    case Ok(v) => v
    case Err(_) => None
  }

  lemma {:induction false} PrefixOf(prefix: string, rest: string)
    ensures StartsWith(prefix + rest, prefix) && (prefix + rest)[|prefix|..] == rest
  {
  }

  /** `%(known/x)s` and `<known/x>` look in the same two places in opposite
      orders, so they agree exactly when no name has a different value in each. */
  lemma {:induction false} KnownFormsAgreeIff(ctx: Context, name: string)
    ensures Found(LookupPercent("known/" + name, ctx)) == FoundTag(TagValue("known/" + name, ctx)) <==>
            (name in ctx.init && name in ctx.known ==> ctx.init[name] == ctx.known[name])
  {
    PrefixOf("known/", name);
    assert ("known/" + name)[0] == 'k';
  }

  lemma {:induction false} SplitAtSlash(section: string, parameter: string, key: string)
    requires '/' !in section && key == section + "/" + parameter
    ensures Find(key, '/') == Some(|section|)
    ensures SplitOnce(key, '/') == Some((section, parameter))
  {
    FindUnique(section, '/', parameter);
    assert key == section + ['/'] + parameter;
    assert key[..|section|] == section && key[|section| + 1..] == parameter;
  }

  /** `prefix` is a name and its slash. */
  lemma {:induction false} PrefixUpToSlash(name: string, prefix: string, section: string, parameter: string, key: string)
    requires '/' !in section && '/' !in name && key == section + "/" + parameter && prefix == name + "/"
    ensures StartsWith(key, prefix) <==> section == name
    ensures section == name ==> key[|prefix|..] == parameter
  {
    SplitAtSlash(section, parameter, key);
    if StartsWith(key, prefix) {
      assert key == name + "/" + key[|prefix|..];
      SplitAtSlash(name, key[|prefix|..], key);
    }
    if section == name {
      assert prefix == key[..|prefix|];
    }
  }

  /** `%(section/parameter)s` reads that section, except that sections called
      `default` and `known` cannot be reached this way. */
  lemma {:induction false} QualifiedName(ctx: Context, section: string, parameter: string, key: string)
    requires '/' !in section && key == section + "/" + parameter
    ensures Found(LookupPercent(key, ctx)) ==
            if section == "default" then OrElse(Get(ctx.defaults, parameter), Get(ctx.builtins, parameter))
            else if section == "known" then OrElse(Get(ctx.known, parameter), Get(ctx.init, parameter))
            else Value(ctx.doc, section, parameter)
  {
    PrefixUpToSlash("default", "default/", section, parameter, key);
    PrefixUpToSlash("known", "known/", section, parameter, key);
    SplitAtSlash(section, parameter, key);
    ByPrefix(key, ctx);
  }

  lemma {:induction false} ByPrefix(key: string, ctx: Context)
    ensures StartsWith(key, "default/") ==>
              Found(LookupPercent(key, ctx)) == OrElse(Get(ctx.defaults, key[8..]), Get(ctx.builtins, key[8..]))
    ensures StartsWith(key, "known/") && !StartsWith(key, "default/") ==>
              Found(LookupPercent(key, ctx)) == OrElse(Get(ctx.known, key[6..]), Get(ctx.init, key[6..]))
    ensures !StartsWith(key, "known/") && !StartsWith(key, "default/") && SplitOnce(key, '/').Some? ==>
              Found(LookupPercent(key, ctx)) == Value(ctx.doc, SplitOnce(key, '/').value.0, SplitOnce(key, '/').value.1)
  {
  }

  /** What chooses the section of `<lt_v/parameter>`: the value of `v`, or `v`. */
  function Selector(ctx: Context, v: string): string {
    if v in ctx.init then ctx.init[v] else if v in ctx.defaults then ctx.defaults[v] else v
  }

  /** `<lt_v/parameter>` never fails: an absent section or parameter is empty. */
  lemma {:induction false} DynamicTag(ctx: Context, v: string, parameter: string, rest: string, tag: string)
    requires '/' !in v && rest == v + "/" + parameter && tag == "lt_" + rest
    ensures TagValue(tag, ctx) ==
            Ok(Some(match Value(ctx.doc, "lt_" + Selector(ctx, v), parameter)
                    case Some(text) => text
                    case None => ""))
  {
    assert tag[0] == 'l';
    PrefixOf("lt_", rest);
    SplitAtSlash(v, parameter, rest);
  }

  // ---- Texts with references in them ----

  /** The first candidate that is there; `None` when none is. */
  ghost predicate IsFirst(candidates: seq<Option<string>>, found: Option<string>) {
    match found
    case None => forall i :: 0 <= i < |candidates| ==> candidates[i] == None
    case Some(_) => exists i :: 0 <= i < |candidates| && candidates[i] == found && forall j :: 0 <= j < i ==> candidates[j] == None
  }

  lemma {:induction false} FirstOfOne(a: Option<string>)
    ensures IsFirst([a], a)
  {
    assert [a][0] == a;
  }

  lemma {:induction false} FirstOfTwo(a: Option<string>, b: Option<string>)
    ensures IsFirst([a, b], OrElse(a, b))
  {
    var candidates := [a, b];
    assert candidates[0] == a && candidates[1] == b;
  }

  lemma {:induction false} FirstOfThree(a: Option<string>, b: Option<string>, c: Option<string>)
    ensures IsFirst([a, b, c], OrElse(a, OrElse(b, c)))
  {
    var candidates := [a, b, c];
    assert candidates[0] == a && candidates[1] == b && candidates[2] == c;
  }

  /** Two expansions one behind the other: the first error wins. */
  function Joined(a: Result<string, Error>, b: Result<string, Error>): Result<string, Error> {
    if a.Err? then a else if b.Err? then b else Ok(a.value + b.value)
  }

  lemma {:induction false} ItemExpands(item: Item, env: Lookups, depth: nat, limit: nat)
    requires Semantics.WellFormed(item) && depth <= limit
    ensures Expand(Semantics.Written(item), env, depth, limit) ==
            Joined(Piece(item, env, depth, limit), Expand(item.rest, env, depth, limit))
  {
    Semantics.ReadsWhatIsWritten(item);
  }

  lemma {:induction false} JoinedTwice(a: string, b: string, r: Result<string, Error>)
    ensures Joined(Ok(a), Joined(Ok(b), r)) == Joined(Ok(a + b), r)
  {
    if r.Ok? {
      assert a + (b + r.value) == a + b + r.value;
    }
  }

  lemma {:induction false} PlainCharacter(c: char, rest: string, text: string, env: Lookups, depth: nat, limit: nat)
    requires c != '%' && c != '<' && depth <= limit && text == [c] + rest
    ensures Expand(text, env, depth, limit) == Joined(Ok([c]), Expand(rest, env, depth, limit))
  {
    ItemExpands(Plain(c, rest), env, depth, limit);
  }

  /** Text without `%` and `<` stands for itself. */
  lemma {:induction false} PlainText(plain: string, rest: string, text: string, env: Lookups, depth: nat, limit: nat)
    requires '%' !in plain && '<' !in plain && depth <= limit && text == plain + rest
    ensures Expand(text, env, depth, limit) == Joined(Ok(plain), Expand(rest, env, depth, limit))
    decreases |plain|
  {
    if plain == "" {
      assert text == rest;
      var r := Expand(rest, env, depth, limit);
      assert r.Ok? ==> "" + r.value == r.value;
    } else {
      assert plain[0] in plain && plain == [plain[0]] + plain[1..];
      PlainText(plain[1..], rest, text[1..], env, depth, limit);
      PlainCharacter(plain[0], text[1..], text, env, depth, limit);
      JoinedTwice([plain[0]], plain[1..], Expand(rest, env, depth, limit));
    }
  }

  lemma {:induction false} TextBehind(first: string, rest: string, text: string)
    requires text == first + rest
    ensures |first| <= |text| && text[|first|..] == rest
  {
  }

  /** `%%` is a percent sign; any other `%` has a parenthesis behind it that is
      closed; nothing expands beyond the limit. */
  lemma {:induction false} PercentSigns(text: string, rest: string, env: Lookups, depth: nat, limit: nat)
    requires depth <= limit
    ensures text == "%%" + rest ==> Expand(text, env, depth, limit) == Joined(Ok("%"), Expand(rest, env, depth, limit))
    ensures text == "%" + rest && (rest == "" || (rest[0] != '%' && rest[0] != '(')) ==>
              Expand(text, env, depth, limit) == Err(ExpectedParen)
    ensures text == "%(" + rest && ')' !in rest ==> Expand(text, env, depth, limit) == Err(UnterminatedVariable)
    ensures Expand(text, env, limit + 1, limit) == Err(RecursionLimit)
  {
    if text == "%%" + rest {
      ItemExpands(Escape(rest), env, depth, limit);
    } else if text == "%(" + rest {
      TextBehind("%(", rest, text);
      TextBehind("%", "(" + rest, text);
      TextBehind("(", rest, "(" + rest);
      if ')' !in rest {
        NextIsMalformed(text, rest);
        MalformedExpands(text, UnterminatedVariable, env, depth, limit);
      }
    } else if text == "%" + rest && (rest == "" || (rest[0] != '%' && rest[0] != '(')) {
      TextBehind("%", rest, text);
      MalformedExpands(text, ExpectedParen, env, depth, limit);
    }
  }

  lemma {:induction false} MalformedExpands(text: string, e: Error, env: Lookups, depth: nat, limit: nat)
    requires text != "" && Next(text) == Malformed(e, "") && depth <= limit
    ensures Expand(text, env, depth, limit) == Err(e)
  {
    assert Piece(Next(text), env, depth, limit) == Err(e);
    assert Scan(text, env, depth, limit) == Err(e);
  }

  lemma {:induction false} NextIsMalformed(text: string, rest: string)
    requires text != "" && text[0] == '%' && text[1..] == "(" + rest && text[1..][1..] == rest && ')' !in rest
    ensures Next(text) == Malformed(UnterminatedVariable, "")
  {
    assert text[1..][0] == '(';
  }

  /** `%(key)s`, with any blanks around the key. The `s` may be left out. */
  ghost predicate IsReference(text: string, key: string, rest: string) {
    exists left, right, s ::
      && AllWhitespace(left) && AllWhitespace(right) && Trimmed(key) && ')' !in key
      && (s == "s" || (s == "" && (rest == "" || rest[0] != 's')))
      && text == ReferenceText(left, key, right, s, rest)
  }

  function ReferenceText(left: string, key: string, right: string, s: string, rest: string): string {
    "%(" + left + key + right + ")" + s + rest
  }

  lemma {:induction false} NameInBlanks(left: string, key: string, right: string, name: string)
    requires AllWhitespace(left) && AllWhitespace(right) && ')' !in key && name == left + key + right
    ensures ')' !in name
  {
  }

  lemma {:induction false} WrittenReference(name: string, left: string, key: string, right: string, s: string, rest: string)
    requires (s == "s" || s == "") && name == left + key + right
    ensures ReferenceText(left, key, right, s, rest) == "%(" + (name + [')'] + Semantics.Suffix(s == "s", rest))
  {
    assert Semantics.Suffix(s == "s", rest) == s + rest;
  }

  /** A reference is a variable whose name trims to the key. */
  lemma {:induction false} ReferenceIsItem(text: string, key: string, rest: string) returns (name: string, hasS: bool)
    requires IsReference(text, key, rest)
    ensures var item := Variable(name, hasS, rest);
            Semantics.WellFormed(item) && Semantics.Written(item) == text && Trim(name) == key
  {
    var left, right, s :|
      && AllWhitespace(left) && AllWhitespace(right) && Trimmed(key) && ')' !in key
      && (s == "s" || (s == "" && (rest == "" || rest[0] != 's')))
      && text == ReferenceText(left, key, right, s, rest);
    name, hasS := left + key + right, s == "s";
    NameInBlanks(left, key, right, name);
    TrimPadded(left, key, right);
    WrittenReference(name, left, key, right, s, rest);
  }

  /** The text of a reference expands to what was found for it, and is `missing`
      when nothing was. */
  ghost predicate StandsFor(ctx: Context, text: string, found: Option<string>, missing: Result<string, Error>, rest: string,
                            depth: nat, limit: nat)
  {
    Expand(text, LookupsOf(ctx), depth, limit) ==
    Joined(if found.Some? then Expand(found.value, LookupsOf(ctx), depth + 1, limit) else missing,
           Expand(rest, LookupsOf(ctx), depth, limit))
  }

  lemma {:induction false} VariableStands(ctx: Context, name: string, hasS: bool, key: string, found: Option<string>, error: Error,
                                          rest: string, depth: nat, limit: nat)
    requires Semantics.WellFormed(Variable(name, hasS, rest)) && Trim(name) == key && depth <= limit
    requires LookupPercent(key, ctx) == Required(found, error)
    ensures StandsFor(ctx, Semantics.Written(Variable(name, hasS, rest)), found, Err(error), rest, depth, limit)
  {
    ItemExpands(Variable(name, hasS, rest), LookupsOf(ctx), depth, limit);
    assert LookupsOf(ctx).percent(name) == LookupPercent(key, ctx);
  }

  lemma {:induction false} ReferenceStands(ctx: Context, text: string, key: string, found: Option<string>, error: Error,
                                           rest: string, depth: nat, limit: nat)
    requires IsReference(text, key, rest) && depth <= limit
    requires LookupPercent(key, ctx) == Required(found, error)
    ensures StandsFor(ctx, text, found, Err(error), rest, depth, limit)
  {
    var name, hasS := ReferenceIsItem(text, key, rest);
    VariableStands(ctx, name, hasS, key, found, error, rest, depth, limit);
  }

  lemma {:induction false} PlainLookup(ctx: Context, key: string) returns (found: Option<string>)
    requires '/' !in key
    ensures IsFirst([if ctx.currentSection.Some? then Value(ctx.doc, ctx.currentSection.value, key) else None,
                     Get(ctx.defaults, key), Get(ctx.builtins, key)], found)
    ensures LookupPercent(key, ctx) == Required(found, UnknownVariable(key))
  {
    var here := if ctx.currentSection.Some? then Value(ctx.doc, ctx.currentSection.value, key) else None;
    found := OrElse(here, OrElse(Get(ctx.defaults, key), Get(ctx.builtins, key)));
    FirstOfThree(here, Get(ctx.defaults, key), Get(ctx.builtins, key));
    assert "default/"[7] == '/' && "known/"[5] == '/';
  }

  lemma {:induction false} QualifiedLookup(ctx: Context, section: string, parameter: string, key: string)
    returns (found: Option<string>)
    requires '/' !in section && key == section + "/" + parameter
    ensures IsFirst(if section == "default" then [Get(ctx.defaults, parameter), Get(ctx.builtins, parameter)]
                    else if section == "known" then [Get(ctx.known, parameter), Get(ctx.init, parameter)]
                    else [Value(ctx.doc, section, parameter)], found)
    ensures LookupPercent(key, ctx) == Required(found, UnknownVariable(key))
  {
    found := Found(LookupPercent(key, ctx));
    QualifiedName(ctx, section, parameter, key);
    FirstOfTwo(Get(ctx.defaults, parameter), Get(ctx.builtins, parameter));
    FirstOfTwo(Get(ctx.known, parameter), Get(ctx.init, parameter));
    FirstOfOne(Value(ctx.doc, section, parameter));
    OnlyUnknown(key, ctx);
  }

  lemma {:induction false} OnlyUnknown(key: string, ctx: Context)
    ensures LookupPercent(key, ctx).Err? ==> LookupPercent(key, ctx).error == UnknownVariable(key)
  {
  }

  /** `%(key)s`: the current section, then the defaults, then the builtins. */
  lemma {:induction false} PlainVariable(ctx: Context, text: string, key: string, rest: string, depth: nat, limit: nat)
    returns (found: Option<string>)
    requires IsReference(text, key, rest) && '/' !in key && depth <= limit
    ensures IsFirst([if ctx.currentSection.Some? then Value(ctx.doc, ctx.currentSection.value, key) else None,
                     Get(ctx.defaults, key), Get(ctx.builtins, key)], found)
    ensures StandsFor(ctx, text, found, Err(UnknownVariable(key)), rest, depth, limit)
  {
    found := PlainLookup(ctx, key);
    ReferenceStands(ctx, text, key, found, UnknownVariable(key), rest, depth, limit);
  }

  /** `%(section/parameter)s`: that section; `default` stands for the defaults
      and then the builtins, `known` for the known values and then the init ones. */
  lemma {:induction false} QualifiedVariable(ctx: Context, text: string, section: string, parameter: string, key: string,
                                             rest: string, depth: nat, limit: nat)
    returns (found: Option<string>)
    requires key == section + "/" + parameter && '/' !in section
    requires IsReference(text, key, rest) && depth <= limit
    ensures IsFirst(if section == "default" then [Get(ctx.defaults, parameter), Get(ctx.builtins, parameter)]
                    else if section == "known" then [Get(ctx.known, parameter), Get(ctx.init, parameter)]
                    else [Value(ctx.doc, section, parameter)], found)
    ensures StandsFor(ctx, text, found, Err(UnknownVariable(key)), rest, depth, limit)
  {
    found := QualifiedLookup(ctx, section, parameter, key);
    ReferenceStands(ctx, text, key, found, UnknownVariable(key), rest, depth, limit);
  }

  // ---- Tags ----

  /** `<tag>`, where the tag with the tags inside it expanded is `key`. */
  ghost predicate IsTag(ctx: Context, text: string, tag: string, key: string, rest: string, depth: nat, limit: nat) {
    && Semantics.Balanced(tag) && text == "<" + tag + ">" + rest
    && (if '<' in tag then Expand(tag, LookupsOf(ctx), depth + 1, limit) == Ok(key) else key == tag)
  }

  lemma {:induction false} TagPiece(env: Lookups, tag: string, key: string, rest: string, value: Result<Option<string>, Error>,
                                    depth: nat, limit: nat)
    requires depth <= limit && env.tag(key) == value
    requires if '<' in tag then Expand(tag, env, depth + 1, limit) == Ok(key) else key == tag
    ensures Piece(Tag(tag, rest), env, depth, limit) ==
            match value
            case Err(e) => Err(e)
            case Ok(None) => Ok("<" + tag + ">")
            case Ok(Some(v)) => Expand(v, env, depth + 1, limit)
  {
    assert LookupTag(tag, env, depth, limit) == value;
  }

  lemma {:induction false} TagText(text: string, tag: string, rest: string)
    requires text == "<" + tag + ">" + rest
    ensures text == Semantics.Written(Tag(tag, rest))
  {
    assert "<" + (tag + ['>'] + rest) == text;
  }

  /** A tag stands for the value looked up; without one it stays as it is. */
  lemma {:induction false} TagStands(ctx: Context, text: string, tag: string, key: string, value: Result<Option<string>, Error>,
                                     rest: string, depth: nat, limit: nat)
    requires IsTag(ctx, text, tag, key, rest, depth, limit) && depth <= limit && TagValue(key, ctx) == value
    ensures StandsFor(ctx, text, if value.Ok? then value.value else None,
                      if value.Ok? then Ok("<" + tag + ">") else Err(value.error), rest, depth, limit)
  {
    TagText(text, tag, rest);
    assert LookupsOf(ctx).tag(key) == value;
    TagPiece(LookupsOf(ctx), tag, key, rest, value, depth, limit);
    ItemExpands(Tag(tag, rest), LookupsOf(ctx), depth, limit);
  }

  lemma {:induction false} TagFails(ctx: Context, text: string, tag: string, key: string, error: Error, rest: string,
                                    depth: nat, limit: nat)
    requires IsTag(ctx, text, tag, key, rest, depth, limit) && depth <= limit && TagValue(key, ctx) == Err(error)
    ensures StandsFor(ctx, text, None, Err(error), rest, depth, limit)
  {
    TagStands(ctx, text, tag, key, Err(error), rest, depth, limit);
  }

  lemma {:induction false} PlainTagValue(ctx: Context, key: string) returns (found: Option<string>)
    requires !("known/" <= key) && !("lt_" <= key) && !("ipt_" <= key)
    ensures IsFirst([Get(ctx.init, key), Get(ctx.defaults, key), Get(ctx.builtins, key)], found)
    ensures TagValue(key, ctx) == Ok(found)
  {
    found := OrElse(Get(ctx.init, key), OrElse(Get(ctx.defaults, key), Get(ctx.builtins, key)));
    FirstOfThree(Get(ctx.init, key), Get(ctx.defaults, key), Get(ctx.builtins, key));
  }

  lemma {:induction false} KnownTagValue(ctx: Context, parameter: string, key: string) returns (found: Option<string>)
    requires key == "known/" + parameter
    ensures IsFirst([Get(ctx.init, parameter), Get(ctx.known, parameter)], found)
    ensures TagValue(key, ctx) == if found.Some? then Ok(found) else Err(UnknownTag(key))
  {
    PrefixOf("known/", parameter);
    found := OrElse(Get(ctx.init, parameter), Get(ctx.known, parameter));
    FirstOfTwo(Get(ctx.init, parameter), Get(ctx.known, parameter));
  }

  lemma {:induction false} SectionTagValue(ctx: Context, prefix: string, v: string, parameter: string, key: string)
    returns (name: string, found: Option<string>)
    requires (prefix == "lt_" || prefix == "ipt_") && '/' !in v && key == prefix + (v + "/" + parameter)
    ensures IsFirst([Get(ctx.init, v), Get(ctx.defaults, v), Some(v)], Some(name))
    ensures found == Value(ctx.doc, prefix + name, parameter)
    ensures TagValue(key, ctx) == Ok(Some(if found.Some? then found.value else ""))
  {
    var inner := v + "/" + parameter;
    PrefixOf(prefix, inner);
    SplitAtSlash(v, parameter, inner);
    var first := OrElse(Get(ctx.init, v), OrElse(Get(ctx.defaults, v), Some(v)));
    name := first.value;
    FirstOfThree(Get(ctx.init, v), Get(ctx.defaults, v), Some(v));
    found := Value(ctx.doc, prefix + name, parameter);
    DynamicValue(ctx, prefix, inner, v, parameter, name);
  }

  lemma {:induction false} DynamicValue(ctx: Context, prefix: string, inner: string, v: string, parameter: string, name: string)
    requires prefix == "lt_" || prefix == "ipt_"
    requires SplitOnce(inner, '/') == Some((v, parameter)) && (prefix + inner)[|prefix|..] == inner
    requires OrElse(Get(ctx.init, v), OrElse(Get(ctx.defaults, v), Some(v))) == Some(name)
    ensures TagValue(prefix + inner, ctx) ==
            Ok(Some(if Value(ctx.doc, prefix + name, parameter).Some? then Value(ctx.doc, prefix + name, parameter).value else ""))
  {
    SectionIs(ctx, prefix, prefix + inner, inner, v, parameter, name);
    TagOfPrefix(ctx, prefix, inner, prefix + inner);
  }

  lemma {:induction false} SectionIs(ctx: Context, prefix: string, tag: string, inner: string, v: string, parameter: string,
                                     name: string)
    requires SplitOnce(inner, '/') == Some((v, parameter))
    requires OrElse(Get(ctx.init, v), OrElse(Get(ctx.defaults, v), Some(v))) == Some(name)
    ensures DynamicSection(prefix, tag, inner, ctx) ==
            Ok(Some(if Value(ctx.doc, prefix + name, parameter).Some? then Value(ctx.doc, prefix + name, parameter).value else ""))
  {
  }

  lemma {:induction false} TagOfPrefix(ctx: Context, prefix: string, inner: string, tag: string)
    requires prefix == "lt_" || prefix == "ipt_"
    requires prefix <= tag && tag[|prefix|..] == inner
    ensures TagValue(tag, ctx) == DynamicSection(prefix, tag, inner, ctx)
  {
    assert tag[0] == prefix[0];
    assert "known/"[0] == 'k';
  }

  lemma {:induction false} NoSlashValue(ctx: Context, key: string)
    requires ("lt_" <= key || "ipt_" <= key) && '/' !in key
    ensures TagValue(key, ctx) == Err(MalformedTag(key))
  {
    assert "known/"[0] == 'k';
  }

  /** `<key>`: the init values, then the defaults, then the builtins; a tag that
      is in none of them stays as it is. */
  lemma {:induction false} PlainTag(ctx: Context, text: string, tag: string, key: string, rest: string, depth: nat, limit: nat)
    returns (found: Option<string>)
    requires IsTag(ctx, text, tag, key, rest, depth, limit) && depth <= limit
    requires !("known/" <= key) && !("lt_" <= key) && !("ipt_" <= key)
    ensures IsFirst([Get(ctx.init, key), Get(ctx.defaults, key), Get(ctx.builtins, key)], found)
    ensures StandsFor(ctx, text, found, Ok("<" + tag + ">"), rest, depth, limit)
  {
    found := PlainTagValue(ctx, key);
    TagStands(ctx, text, tag, key, Ok(found), rest, depth, limit);
  }

  /** `<known/parameter>`: the init values, then the known ones. */
  lemma {:induction false} KnownTag(ctx: Context, text: string, tag: string, parameter: string, key: string, rest: string,
                                    depth: nat, limit: nat)
    returns (found: Option<string>)
    requires IsTag(ctx, text, tag, key, rest, depth, limit) && depth <= limit && key == "known/" + parameter
    ensures IsFirst([Get(ctx.init, parameter), Get(ctx.known, parameter)], found)
    ensures StandsFor(ctx, text, found, Err(UnknownTag(key)), rest, depth, limit)
  {
    found := KnownTagValue(ctx, parameter, key);
    if found.None? {
      TagFails(ctx, text, tag, key, UnknownTag(key), rest, depth, limit);
    } else {
      TagStands(ctx, text, tag, key, Ok(found), rest, depth, limit);
      StandsWhatever(ctx, text, found, Ok("<" + tag + ">"), Err(UnknownTag(key)), rest, depth, limit);
    }
  }

  lemma {:induction false} StandsWhatever(ctx: Context, text: string, found: Option<string>, missing: Result<string, Error>,
                                          other: Result<string, Error>, rest: string, depth: nat, limit: nat)
    requires found.Some? && StandsFor(ctx, text, found, missing, rest, depth, limit)
    ensures StandsFor(ctx, text, found, other, rest, depth, limit)
  {
  }

  /** `<lt_v/parameter>` and `<ipt_v/parameter>`: the section is called `lt_` or
      `ipt_` and the value of `v`, or `v` itself. A section or parameter that is
      not there is the empty text. */
  lemma {:induction false} SectionTag(ctx: Context, text: string, tag: string, prefix: string, v: string, parameter: string,
                                      key: string, rest: string, depth: nat, limit: nat)
    returns (name: string, found: Option<string>)
    requires (prefix == "lt_" || prefix == "ipt_") && '/' !in v && key == prefix + (v + "/" + parameter)
    requires IsTag(ctx, text, tag, key, rest, depth, limit) && depth <= limit
    ensures IsFirst([Get(ctx.init, v), Get(ctx.defaults, v), Some(v)], Some(name))
    ensures found == Value(ctx.doc, prefix + name, parameter)
    ensures StandsFor(ctx, text, Some(if found.Some? then found.value else ""), Ok("<" + tag + ">"), rest, depth, limit)
  {
    name, found := SectionTagValue(ctx, prefix, v, parameter, key);
    TagStands(ctx, text, tag, key, Ok(Some(if found.Some? then found.value else "")), rest, depth, limit);
  }

  /** Such a tag without a slash is an error. */
  lemma {:induction false} BadTag(ctx: Context, text: string, tag: string, key: string, rest: string, depth: nat, limit: nat)
    requires IsTag(ctx, text, tag, key, rest, depth, limit) && depth <= limit
    requires ("lt_" <= key || "ipt_" <= key) && '/' !in key
    ensures StandsFor(ctx, text, None, Err(MalformedTag(key)), rest, depth, limit)
  {
    NoSlashValue(ctx, key);
    TagFails(ctx, text, tag, key, MalformedTag(key), rest, depth, limit);
  }

  /** An error in a tag inside a tag is an error of the whole. */
  lemma {:induction false} BadInnerTag(ctx: Context, text: string, tag: string, rest: string, depth: nat, limit: nat)
    requires Semantics.Balanced(tag) && text == "<" + tag + ">" + rest && depth <= limit
    requires '<' in tag && Expand(tag, LookupsOf(ctx), depth + 1, limit).Err?
    ensures Expand(text, LookupsOf(ctx), depth, limit) == Expand(tag, LookupsOf(ctx), depth + 1, limit)
  {
    TagText(text, tag, rest);
    ItemExpands(Tag(tag, rest), LookupsOf(ctx), depth, limit);
  }

  /** A `<` that is never closed stands for itself, with all that follows. */
  lemma {:induction false} UnclosedTag(text: string, env: Lookups, depth: nat, limit: nat)
    requires Semantics.NeverCloses(text) && depth <= limit
    ensures Expand("<" + text, env, depth, limit) == Ok("<" + text)
  {
    var item := Unclosed(text, "");
    assert "<" + text + "" == "<" + text;
    ItemExpands(item, env, depth, limit);
  }
}
