/**
 What interpolation means, with no depth in sight: derivations of a text from
 its pieces. The bounded evaluator computes exactly the derivations that are
 not too high, and rejects every text that refers back into a cycle.
 */
module InterpolatorSemantics {
  import opened Prelude
  import opened Text
  import opened Interpolator

  // ---- Items, from the written side ----

  function Suffix(s: bool, rest: string): string {
    if s then "s" + rest else rest
  }

  /** The text of an item followed by the rest of the text. */
  function Written(item: Item): string {
    match item
    case Plain(c, rest) => [c] + rest
    case Escape(rest) => "%%" + rest
    case Variable(name, s, rest) => "%(" + (name + [')'] + Suffix(s, rest))
    case Tag(tag, rest) => "<" + (tag + ['>'] + rest)
    case Unclosed(text, rest) => "<" + text + rest
    case Malformed(_, rest) => rest
  }

  /** Opening minus closing brackets. */
  function Excess(t: string): int {
    if t == "" then 0
    else (if t[0] == '<' then 1 else if t[0] == '>' then -1 else 0) + Excess(t[1..])
  }

  /** Every prefix opens at least as much as it closes. */
  ghost predicate NeverBelow(t: string, open: int) {
    forall i {:trigger Excess(t[..i])} :: 0 <= i <= |t| ==> open + Excess(t[..i]) >= 0
  }

  ghost predicate Balanced(t: string) {
    NeverBelow(t, 0) && Excess(t) == 0
  }

  /** No `>` of the text closes a bracket opened just before it. */
  ghost predicate NeverCloses(t: string) {
    forall i {:trigger Balanced(t[..i])} :: 0 <= i < |t| && t[i] == '>' ==> !Balanced(t[..i])
  }

  /** What the pieces of an item have to look like. */
  ghost predicate WellFormed(item: Item) {
    match item
    case Plain(c, _) => c != '%' && c != '<'
    case Escape(_) => true
    case Variable(name, s, rest) => ')' !in name && (!s ==> rest == "" || rest[0] != 's')
    case Tag(tag, _) => Balanced(tag)
    case Unclosed(text, rest) => rest == "" && NeverCloses(text)
    case Malformed(_, _) => false
  }

  lemma {:induction false} ExcessSplit(a: string, b: string)
    ensures Excess(a + b) == Excess(a) + Excess(b)
  {
    if a == "" {
      assert a + b == b;
    } else {
      ExcessSplit(a[1..], b);
      assert (a + b)[1..] == a[1..] + b;
    }
  }

  /** The excess of every prefix of `t`, from the excess of the prefixes of its tail. */
  lemma {:induction false} ExcessPrefix(t: string, i: nat)
    requires 0 < i <= |t|
    ensures Excess(t[..i]) == Excess([t[0]]) + Excess(t[1..][..i - 1])
  {
    assert t[..i] == [t[0]] + t[1..][..i - 1];
    ExcessSplit([t[0]], t[1..][..i - 1]);
  }

  /** The scanner's counter finds the first `>` that closes an enclosing bracket. */
  lemma {:induction false} CloseIndexFinds(t: string, open: nat, j: nat)
    requires j < |t| && t[j] == '>'
    requires NeverBelow(t[..j], open) && open + Excess(t[..j]) == 0
    ensures CloseIndex(t, open) == Some(j)
  {
    if j == 0 {
      assert t[..0] == "";
    } else {
      ExcessPrefix(t, 1);
      assert t[..j][..1] == t[..1];
      var inner := Nesting(t[0], open);
      forall i {:trigger t[1..][..j - 1][..i]} | 0 <= i <= j - 1
        ensures inner + Excess(t[1..][..j - 1][..i]) >= 0
      {
        ExcessPrefix(t, i + 1);
        assert t[1..][..j - 1][..i] == t[1..][..i];
        assert t[..j][..i + 1] == t[..i + 1];
      }
      ExcessPrefix(t, j);
      CloseIndexFinds(t[1..], inner, j - 1);
    }
  }

  lemma {:induction false} CloseIndexSound(t: string, open: nat)
    ensures var r := CloseIndex(t, open);
            r.Some? ==> NeverBelow(t[..r.value], open) && open + Excess(t[..r.value]) == 0
  {
    var r := CloseIndex(t, open);
    if r.Some? && r.value > 0 {
      var inner := Nesting(t[0], open);
      CloseIndexSound(t[1..], inner);
      var j := r.value;
      ExcessPrefix(t, j);
      forall i | 0 <= i <= j
        ensures open + Excess(t[..j][..i]) >= 0
      {
        assert t[..j][..i] == t[..i];
        if i > 0 {
          ExcessPrefix(t, i);
          assert t[1..][..j - 1][..i - 1] == t[1..][..i - 1];
        }
      }
    }
  }

  lemma {:induction false} NoCloseIndex(t: string)
    ensures CloseIndex(t, 0) == None <==> NeverCloses(t)
  {
    if CloseIndex(t, 0) == None {
      forall i | 0 <= i < |t| && t[i] == '>'
        ensures !Balanced(t[..i])
      {
        if Balanced(t[..i]) {
          CloseIndexFinds(t, 0, i);
        }
      }
    } else {
      CloseIndexSound(t, 0);
      assert Balanced(t[..CloseIndex(t, 0).value]);
    }
  }

  lemma {:induction false} VariableText(s: string, name: string, after: string)
    requires s == "%(" + (name + [')'] + after) && ')' !in name
    ensures s[0] == '%' && s[1] == '(' && Find(s[1..][1..], ')') == Some(|name|)
    ensures s[1..][1..][..|name|] == name && s[1..][1..][|name| + 1..] == after
  {
    assert s[1..][1..] == name + [')'] + after;
    FindUnique(name, ')', after);
    Advance(s[1..][1..], name, [')'] + after);
  }

  lemma {:induction false} VariableReadBack(name: string, hasS: bool, rest: string)
    requires WellFormed(Variable(name, hasS, rest))
    ensures Next(Written(Variable(name, hasS, rest))) == Variable(name, hasS, rest)
  {
    VariableText(Written(Variable(name, hasS, rest)), name, Suffix(hasS, rest));
    SuffixReadBack(hasS, rest, Suffix(hasS, rest));
    NextIsVariable(Written(Variable(name, hasS, rest)), name, hasS, rest, Suffix(hasS, rest));
  }

  lemma {:induction false} SuffixReadBack(hasS: bool, rest: string, after: string)
    requires after == Suffix(hasS, rest) && (!hasS ==> rest == "" || rest[0] != 's')
    ensures hasS == (after != "" && after[0] == 's') && rest == (if hasS then after[1..] else after)
  {
  }

  lemma {:induction false} NextIsVariable(s: string, name: string, hasS: bool, rest: string, after: string)
    requires |s| > 2 && s[0] == '%' && s[1] == '(' && Find(s[1..][1..], ')') == Some(|name|)
    requires s[1..][1..][..|name|] == name && s[1..][1..][|name| + 1..] == after
    requires hasS == (after != "" && after[0] == 's') && rest == (if hasS then after[1..] else after)
    ensures Next(s) == Variable(name, hasS, rest)
  {
  }

  lemma {:induction false} TagReadBack(tag: string, rest: string)
    requires Balanced(tag)
    ensures Next(Written(Tag(tag, rest))) == Tag(tag, rest)
  {
    var t := Written(Tag(tag, rest))[1..];
    assert t == tag + ['>'] + rest;
    Advance(t, tag, ['>'] + rest);
    CloseIndexFinds(t, 0, |tag|);
  }

  /** Reading back a written item. */
  lemma {:induction false} ReadsWhatIsWritten(item: Item)
    requires WellFormed(item)
    ensures Written(item) != "" && Next(Written(item)) == item
  {
    match item {
      case Plain(_, rest) => assert Written(item)[1..] == rest;
      case Escape(rest) => assert Written(item)[1..] == "%" + rest;
      case Variable(name, s, rest) => VariableReadBack(name, s, rest);
      case Tag(tag, rest) => TagReadBack(tag, rest);
      case Unclosed(text, rest) =>
        assert Written(item)[1..] == text;
        NoCloseIndex(text);
    }
  }

  lemma {:induction false} TextOfVariable(s: string, name: string, after: string)
    requires |s| > 2 + |name| && s[0] == '%' && s[1] == '(' && s[1..][1..][|name|] == ')'
    requires s[1..][1..][..|name|] == name && s[1..][1..][|name| + 1..] == after
    ensures s == "%(" + (name + [')'] + after)
  {
    assert s[1..][1..] == name + [')'] + after;
  }

  lemma {:induction false} VariableSound(s: string)
    requires s != "" && Next(s).Variable?
    ensures WellFormed(Next(s)) && Written(Next(s)) == s
  {
    var Variable(name, hasS, rest) := Next(s);
    var after := s[1..][1..][|name| + 1..];
    TextOfVariable(s, name, after);
    SuffixIsRead(after, hasS, rest);
  }

  lemma {:induction false} SuffixIsRead(after: string, hasS: bool, rest: string)
    requires hasS == (after != "" && after[0] == 's') && rest == (if hasS then after[1..] else after)
    ensures after == Suffix(hasS, rest)
  {
  }

  lemma {:induction false} TagSound(s: string)
    requires s != "" && Next(s).Tag?
    ensures WellFormed(Next(s)) && Written(Next(s)) == s
  {
    var Tag(tag, rest) := Next(s);
    CloseIndexSound(s[1..], 0);
    Advance(s[1..], tag, s[1..][|tag|..]);
    assert s[1..] == tag + ['>'] + rest;
  }

  /** What is read is what was written. */
  lemma {:induction false} ReadItemSound(s: string)
    requires s != "" && !Next(s).Malformed?
    ensures WellFormed(Next(s)) && Written(Next(s)) == s
  {
    match Next(s) {
      case Plain(_, _) =>
      case Escape(_) =>
      case Variable(_, _, _) => VariableSound(s);
      case Tag(_, _) => TagSound(s);
      case Unclosed(_, _) => NoCloseIndex(s[1..]);
    }
  }

  // ---- The rules ----

  /** A derivation: the items of a text and, for every variable or tag among
      them, a derivation of the text that it stands for. */
  datatype Deriv =
    | End
    | Step(item: Item, key: Option<Deriv>, value: Option<Deriv>, rest: Deriv)

  /** The text a derivation is about. */
  function Source(d: Deriv): string {
    match d
    case End => ""
    case Step(item, _, _, _) => Written(item)
  }

  /** The text it expands to. */
  function Expansion(d: Deriv): string {
    match d
    case End => ""
    case Step(item, _, value, rest) =>
      var piece := match item
        case Plain(c, _) => [c]
        case Escape(_) => "%"
        case Unclosed(text, _) => "<" + text
        case Variable(name, _, _) => OptionalExpansion(value, name)
        case Tag(tag, _) => OptionalExpansion(value, "<" + tag + ">")
        case Malformed(_, _) => "";
      piece + Expansion(rest)
  }

  function OptionalExpansion(d: Option<Deriv>, otherwise: string): string {
    match d
    case None => otherwise
    case Some(v) => Expansion(v)
  }

  /** How many references deep it goes. */
  function Height(d: Deriv): nat {
    match d
    case End => 0
    case Step(_, key, value, rest) => Max(OptionalHeight(key), Max(OptionalHeight(value), Height(rest)))
  }

  function OptionalHeight(d: Option<Deriv>): nat {
    match d
    case None => 0
    case Some(v) => 1 + Height(v)
  }

  /** The rules, one for each item. */
  ghost predicate Valid(d: Deriv, env: Lookups)
    decreases d
  {
    match d
    case End => true
    case Step(item, key, value, rest) =>
      && WellFormed(item) && item.rest == Source(rest) && Valid(rest, env)
      && match item
         case Variable(name, _, _) => key.None? && value.Some? && Derives(value, env.percent(name), env)
         case Tag(tag, _) => ValidKey(tag, key, env) && DerivesTag(value, env.tag(OptionalExpansion(key, tag)), env)
         case _ => key.None? && value.None?
  }

  /** A tag is looked up under its own text or, with tags inside, under the
      expansion of that text. */
  ghost predicate ValidKey(tag: string, key: Option<Deriv>, env: Lookups)
    decreases key, 1
  {
    if '<' in tag then Derives(key, Ok(tag), env) else key.None?
  }

  ghost predicate Derives(d: Option<Deriv>, text: Result<string, Error>, env: Lookups)
    decreases d, 0
  {
    match d
    case None => false
    case Some(v) => text == Ok(Source(v)) && Valid(v, env)
  }

  ghost predicate DerivesTag(d: Option<Deriv>, text: Result<Option<string>, Error>, env: Lookups)
    decreases d
  {
    match d
    case None => text == Ok(None)
    case Some(v) => text == Ok(Some(Source(v))) && Valid(v, env)
  }

  /** The big-step relation, bounded by a height. */
  ghost predicate Expands(s: string, r: string, height: int, env: Lookups) {
    exists d :: Valid(d, env) && Source(d) == s && Expansion(d) == r && Height(d) <= height
  }

  // ---- Soundness ----

  lemma {:induction false} KeySound(tag: string, env: Lookups, depth: nat, limit: nat) returns (key: Option<Deriv>)
    requires depth <= limit && LookupTag(tag, env, depth, limit).Ok?
    ensures ValidKey(tag, key, env) && depth + OptionalHeight(key) <= limit
    ensures LookupTag(tag, env, depth, limit) == env.tag(OptionalExpansion(key, tag))
    decreases limit + 1 - depth, 0, 0
  {
    key := None;
    if '<' in tag {
      var d := ExpandSound(tag, env, depth + 1, limit);
      key := Some(d);
    }
  }

  lemma {:induction false} ExpandSound(s: string, env: Lookups, depth: nat, limit: nat) returns (d: Deriv)
    requires Expand(s, env, depth, limit).Ok?
    ensures Valid(d, env) && Source(d) == s && depth + Height(d) <= limit
    ensures Expand(s, env, depth, limit) == Ok(Expansion(d))
    decreases if depth > limit then 0 else limit + 1 - depth, |s| + 1
  {
    d := ScanSound(s, env, depth, limit);
  }

  lemma {:induction false} ScanSound(s: string, env: Lookups, depth: nat, limit: nat) returns (d: Deriv)
    requires depth <= limit && Scan(s, env, depth, limit).Ok?
    ensures Valid(d, env) && Source(d) == s && depth + Height(d) <= limit
    ensures Scan(s, env, depth, limit) == Ok(Expansion(d))
    decreases limit + 1 - depth, |s|, 2
  {
    if s == "" {
      return End;
    }
    var item := Next(s);
    ReadItemSound(s);
    var rest := ScanSound(item.rest, env, depth, limit);
    var key, value := PieceSound(item, env, depth, limit);
    d := Step(item, key, value, rest);
  }

  lemma {:induction false} PieceSound(item: Item, env: Lookups, depth: nat, limit: nat)
    returns (key: Option<Deriv>, value: Option<Deriv>)
    requires depth <= limit && Piece(item, env, depth, limit).Ok? && WellFormed(item)
    ensures forall rest :: Valid(rest, env) && Source(rest) == item.rest ==> Valid(Step(item, key, value, rest), env)
    ensures forall rest :: Expansion(Step(item, key, value, rest)) ==
                           Piece(item, env, depth, limit).value + Expansion(rest)
    ensures depth + OptionalHeight(key) <= limit && depth + OptionalHeight(value) <= limit
    decreases limit + 1 - depth, 0, 1
  {
    key, value := None, None;
    match item {
      case Variable(name, _, _) =>
        var v := ExpandSound(env.percent(name).value, env, depth + 1, limit);
        value := Some(v);
      case Tag(tag, _) =>
        key := KeySound(tag, env, depth, limit);
        var found := LookupTag(tag, env, depth, limit).value;
        if found.Some? {
          var v := ExpandSound(found.value, env, depth + 1, limit);
          value := Some(v);
        }
      case _ =>
    }
  }

  // ---- Completeness ----

  lemma {:induction false} ExpandComplete(d: Deriv, env: Lookups, depth: nat, limit: nat)
    requires Valid(d, env) && depth + Height(d) <= limit
    ensures Expand(Source(d), env, depth, limit) == Ok(Expansion(d))
    decreases d, 1
  {
    if d.Step? {
      ReadsWhatIsWritten(d.item);
      PieceComplete(d, env, depth, limit);
      ExpandComplete(d.rest, env, depth, limit);
    }
  }

  lemma {:induction false} PieceComplete(d: Deriv, env: Lookups, depth: nat, limit: nat)
    requires d.Step? && Valid(d, env) && depth + Height(d) <= limit
    ensures var piece := Piece(d.item, env, depth, limit);
            piece.Ok? && Expansion(d) == piece.value + Expansion(d.rest)
    decreases d, 0
  {
    match d.item {
      case Variable(_, _, _) =>
        ExpandComplete(d.value.value, env, depth + 1, limit);
      case Tag(tag, _) =>
        KeyComplete(tag, d.key, env, depth, limit);
        if d.value.Some? {
          ExpandComplete(d.value.value, env, depth + 1, limit);
        }
      case _ =>
    }
  }

  lemma {:induction false} KeyComplete(tag: string, key: Option<Deriv>, env: Lookups, depth: nat, limit: nat)
    requires ValidKey(tag, key, env) && depth <= limit && depth + OptionalHeight(key) <= limit
    ensures LookupTag(tag, env, depth, limit) == env.tag(OptionalExpansion(key, tag))
    decreases key, 2
  {
    if key.Some? {
      ExpandComplete(key.value, env, depth + 1, limit);
    }
  }

  // ---- Main results ----

  /** The bounded evaluator is sound and complete for the unbounded relation. */
  lemma {:induction false} ExpandIffDerivable(s: string, r: string, env: Lookups, depth: nat, limit: nat)
    ensures Expand(s, env, depth, limit) == Ok(r) <==> Expands(s, r, limit - depth, env)
  {
    if Expand(s, env, depth, limit) == Ok(r) {
      var d := ExpandSound(s, env, depth, limit);
    }
    if Expands(s, r, limit - depth, env) {
      var d :| Valid(d, env) && Source(d) == s && Expansion(d) == r && Height(d) <= limit - depth;
      ExpandComplete(d, env, depth, limit);
    }
  }

  /** A text has at most one expansion, whatever the heights. */
  lemma {:induction false} ExpansionDeterministic(s: string, r1: string, h1: int, r2: string, h2: int, env: Lookups)
    requires Expands(s, r1, h1, env) && Expands(s, r2, h2, env)
    ensures r1 == r2
  {
    var limit := Max(h1, h2);
    ExpandIffDerivable(s, r1, env, 0, limit);
    ExpandIffDerivable(s, r2, env, 0, limit);
  }

  /** Any outcome but the recursion error, a value or another error, is the
      outcome at every smaller starting depth. */
  lemma {:induction false} OutcomeStable(s: string, env: Lookups, shallow: nat, depth: nat, limit: nat)
    requires shallow <= depth
    requires Expand(s, env, depth, limit) != Err(RecursionLimit)
    ensures Expand(s, env, shallow, limit) == Expand(s, env, depth, limit)
    decreases if depth > limit then 0 else limit + 1 - depth, |s| + 1
  {
    ScanStable(s, env, shallow, depth, limit);
  }

  lemma {:induction false} ScanStable(s: string, env: Lookups, shallow: nat, depth: nat, limit: nat)
    requires shallow <= depth <= limit
    requires Scan(s, env, depth, limit) != Err(RecursionLimit)
    ensures Scan(s, env, shallow, limit) == Scan(s, env, depth, limit)
    decreases limit + 1 - depth, |s|, 2
  {
    if s != "" {
      PieceStable(Next(s), env, shallow, depth, limit);
      if Piece(Next(s), env, depth, limit).Ok? {
        ScanStable(Next(s).rest, env, shallow, depth, limit);
      }
    }
  }

  lemma {:induction false} PieceStable(item: Item, env: Lookups, shallow: nat, depth: nat, limit: nat)
    requires shallow <= depth <= limit
    requires Piece(item, env, depth, limit) != Err(RecursionLimit)
    ensures Piece(item, env, shallow, limit) == Piece(item, env, depth, limit)
    decreases limit + 1 - depth, 0, 1
  {
    match item {
      case Variable(name, _, _) =>
        if env.percent(name).Ok? {
          OutcomeStable(env.percent(name).value, env, shallow + 1, depth + 1, limit);
        }
      case Tag(tag, _) =>
        if '<' in tag {
          OutcomeStable(tag, env, shallow + 1, depth + 1, limit);
        }
        var value := LookupTag(tag, env, depth, limit);
        if value.Ok? && value.value.Some? {
          OutcomeStable(value.value.value, env, shallow + 1, depth + 1, limit);
        }
      case _ =>
    }
  }

  // ---- Cycles ----

  /** The top-level scan of `s`, as long as nothing before it fails, reaches a
      reference whose text is `u`. */
  ghost predicate RefersTo(s: string, u: string, env: Lookups)
    decreases |s|
  {
    s != "" && (ItemRefersTo(Next(s), u, env) || RefersTo(Next(s).rest, u, env))
  }

  /** A tag with tags inside refers to its own text and, once that has an
      expansion, to the value found under it. */
  ghost predicate ItemRefersTo(item: Item, u: string, env: Lookups) {
    match item
    case Variable(name, _, _) => env.percent(name) == Ok(u)
    case Tag(tag, _) =>
      || ('<' in tag && u == tag)
      || exists key :: ValidKey(tag, key, env) && env.tag(OptionalExpansion(key, tag)) == Ok(Some(u))
    case _ => false
  }

  ghost predicate RefersInto(s: string, texts: set<string>, env: Lookups) {
    exists u :: u in texts && RefersTo(s, u, env)
  }

  /** Every text of the set refers back into the set. */
  ghost predicate Cyclic(texts: set<string>, env: Lookups) {
    forall t {:trigger RefersInto(t, texts, env)} :: t in texts ==> RefersInto(t, texts, env)
  }

  lemma {:induction false} KeysAgree(tag: string, k1: Option<Deriv>, k2: Option<Deriv>, env: Lookups)
    requires ValidKey(tag, k1, env) && ValidKey(tag, k2, env)
    ensures OptionalExpansion(k1, tag) == OptionalExpansion(k2, tag)
  {
    if '<' in tag {
      var limit := Max(Height(k1.value), Height(k2.value));
      ExpandComplete(k1.value, env, 0, limit);
      ExpandComplete(k2.value, env, 0, limit);
    }
  }

  /** A derivation derives everything its text refers to. */
  lemma {:induction false} ReferenceDerived(d: Deriv, u: string, env: Lookups) returns (sub: Deriv)
    requires Valid(d, env) && RefersTo(Source(d), u, env)
    ensures sub < d && Valid(sub, env) && Source(sub) == u
    decreases d
  {
    ReadsWhatIsWritten(d.item);
    if !ItemRefersTo(d.item, u, env) {
      sub := ReferenceDerived(d.rest, u, env);
    } else if d.item.Variable? {
      assert Derives(d.value, env.percent(d.item.name), env);
      sub := d.value.value;
    } else if '<' in d.item.tag && u == d.item.tag {
      assert Derives(d.key, Ok(u), env);
      sub := d.key.value;
    } else {
      var key :| ValidKey(d.item.tag, key, env) && env.tag(OptionalExpansion(key, d.item.tag)) == Ok(Some(u));
      KeysAgree(d.item.tag, key, d.key, env);
      assert DerivesTag(d.value, Ok(Some(u)), env);
      sub := d.value.value;
    }
  }

  lemma {:induction false} CycleNotDerivable(texts: set<string>, d: Deriv, env: Lookups)
    requires Cyclic(texts, env) && Valid(d, env)
    ensures Source(d) !in texts
    decreases d
  {
    if Source(d) in texts {
      assert RefersInto(Source(d), texts, env);
      var u :| u in texts && RefersTo(Source(d), u, env);
      var sub := ReferenceDerived(d, u, env);
      CycleNotDerivable(texts, sub, env);
    }
  }

  /** Whatever lies on a cycle or refers into one is an error for every depth
      and every limit. */
  lemma {:induction false} CycleAlwaysFails(texts: set<string>, s: string, env: Lookups, depth: nat, limit: nat)
    requires Cyclic(texts, env) && (s in texts || RefersInto(s, texts, env))
    ensures Expand(s, env, depth, limit).Err?
  {
    if Expand(s, env, depth, limit).Ok? {
      var d := ExpandSound(s, env, depth, limit);
      if s !in texts {
        var u :| u in texts && RefersTo(s, u, env);
        d := ReferenceDerived(d, u, env);
      }
      CycleNotDerivable(texts, d, env);
    }
  }

  /** `interpolate`: a value exactly when the text has a derivation of height at
      most 10, and then that value. */
  method Interpolate(input: string, ctx: Context) returns (r: Result<string, Error>)
    ensures forall v :: r == Ok(v) <==> Expands(input, v, 10, LookupsOf(ctx))
    ensures r == Expand(input, LookupsOf(ctx), 0, 10)
  {
    r := InterpolateInner(input, LookupsOf(ctx), 0);
    forall v
      ensures r == Ok(v) <==> Expands(input, v, 10, LookupsOf(ctx))
    {
      ExpandIffDerivable(input, v, LookupsOf(ctx), 0, 10);
    }
  }
}
