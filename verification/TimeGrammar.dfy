/**
 Which texts are durations, and how long: numbers with units, saturating at the
 largest 64-bit number.
 */
module TimeGrammar {
  import opened Prelude
  import opened Text
  import opened Numbers
  import opened TimeValues

  /** The length of a unit, in seconds. */
  function Length(unit: string): Option<nat> {
    if unit == "y" || unit == "year" || unit == "years" then Some(31_536_000)
    else if unit == "mo" || unit == "month" || unit == "months" then Some(2_592_000)
    else if unit == "w" || unit == "week" || unit == "weeks" then Some(604_800)
    else if unit == "d" || unit == "day" || unit == "days" then Some(86_400)
    else if unit == "h" || unit == "hour" || unit == "hours" then Some(3_600)
    else if unit == "m" || unit == "min" || unit == "minute" || unit == "minutes" then Some(60)
    else if unit == "s" || unit == "sec" || unit == "second" || unit == "seconds" then Some(1)
    else None
  }

  lemma {:induction false} UnitInIs(units: seq<(string, nat)>, unit: string) returns (i: nat)
    ensures match UnitIn(units, unit)
            case Some(k) => i < |units| && units[i] == (unit, k)
            case None => forall j :: 0 <= j < |units| ==> units[j].0 != unit
  {
    if units == [] || units[0].0 == unit {
      i := 0;
    } else {
      i := UnitInIs(units[1..], unit);
      i := i + 1;
      assert forall j :: 0 < j < |units| ==> units[j] == units[1..][j - 1];
    }
  }

  lemma {:induction false} TableIs(i: nat)
    requires i < |UNITS|
    ensures Length(UNITS[i].0) == Some(UNITS[i].1)
  {
  }

  lemma {:induction false} TableHas(unit: string) returns (i: nat)
    requires Length(unit).Some?
    ensures i < |UNITS| && UNITS[i].0 == unit
  {
    i := if unit == "y" then 0 else if unit == "year" then 1 else if unit == "years" then 2
      else if unit == "mo" then 3 else if unit == "month" then 4 else if unit == "months" then 5
      else if unit == "w" then 6 else if unit == "week" then 7 else if unit == "weeks" then 8
      else if unit == "d" then 9 else if unit == "day" then 10 else if unit == "days" then 11
      else if unit == "h" then 12 else if unit == "hour" then 13 else if unit == "hours" then 14
      else if unit == "m" then 15 else if unit == "min" then 16 else if unit == "minute" then 17
      else if unit == "minutes" then 18 else if unit == "s" then 19 else if unit == "sec" then 20
      else if unit == "second" then 21 else 22;
  }

  /** The table of units has these spellings and lengths, and no others. */
  lemma {:induction false} UnitIs(unit: string)
    ensures UnitSeconds(unit) == Length(unit)
  {
    var i := UnitInIs(UNITS, unit);
    if UnitSeconds(unit).Some? {
      TableIs(i);
    } else if Length(unit).Some? {
      var j := TableHas(unit);
      assert false;
    }
  }

  predicate IsNumber(digits: string) {
    digits != "" && AllDigits(digits) && NumberOf(digits) <= 0xFFFF_FFFF_FFFF_FFFF
  }

  /** A number with a unit, after some white space. */
  datatype Component = Component(gap: string, digits: string, unit: string) {
    predicate Valid() {
      AllWhitespace(gap) && IsNumber(digits) && unit != "" && AllLetters(unit) && UnitSeconds(unit).Some?
    }

    function Text(): string {
      gap + (digits + unit)
    }

    function Seconds(): nat
      requires Valid()
    {
      NumberOf(digits) * UnitSeconds(unit).value
    }
  }

  /** What follows the last component: white space, or a number without unit
      and then anything, which is not read. */
  datatype Tail = Blank(gap: string) | Bare(gap: string, digits: string, ignored: string) {
    predicate Valid() {
      && AllWhitespace(gap)
      && (Bare? ==> IsNumber(digits) && (ignored != "" ==> !IsDigit(ignored[0]) && !IsLetter(ignored[0])))
    }

    function Text(): string {
      if Blank? then gap else gap + (digits + ignored)
    }

    function Seconds(): nat
      requires Valid()
    {
      if Blank? then 0 else NumberOf(digits)
    }
  }

  predicate AllValid(cs: seq<Component>) {
    forall i :: 0 <= i < |cs| ==> cs[i].Valid()
  }

  function TextOf(cs: seq<Component>, tail: Tail): string {
    if cs == [] then tail.Text() else cs[0].Text() + TextOf(cs[1..], tail)
  }

  function Total(cs: seq<Component>, tail: Tail): nat
    requires AllValid(cs) && tail.Valid()
  {
    if cs == [] then tail.Seconds() else cs[0].Seconds() + Total(cs[1..], tail)
  }

  ghost predicate Reads(s: string, cs: seq<Component>, tail: Tail) {
    && AllValid(cs) && tail.Valid()
    && s == TextOf(cs, tail)
    && (cs != [] || tail.Bare?)
  }

  // ---- Walking over what was written ----

  lemma {:induction false} SkipGap(gap: string, s: string, total: nat, consumed: bool)
    requires AllWhitespace(gap)
    ensures Walk(gap + s, total, consumed) == Walk(s, total, consumed)
    decreases |gap|
  {
    if gap == "" {
      assert gap + s == s;
    } else {
      assert gap[0] in gap;
      assert (gap + s)[1..] == gap[1..] + s;
      SkipGap(gap[1..], s, total, consumed);
    }
  }

  lemma {:induction false} WalkNumber(digits: string, s: string, total: nat, consumed: bool)
    requires IsNumber(digits) && (s != "" ==> !IsDigit(s[0]))
    ensures Walk(digits + s, total, consumed) == WalkUnit(s, NumberOf(digits), total)
  {
    assert digits[0] in digits && (digits + s)[0] == digits[0];
    DigitSpanIs(digits, s);
  }

  lemma {:induction false} WalkWithUnit(unit: string, s: string, n: nat, total: nat)
    requires unit != "" && AllLetters(unit) && (s != "" ==> !IsLetter(s[0])) && UnitSeconds(unit).Some?
    ensures WalkUnit(unit + s, n, total)
         == Walk(s, SaturatingAdd(total, SaturatingMul(n, UnitSeconds(unit).value)), true)
  {
    LetterSpanIs(unit, s);
  }

  lemma {:induction false} WalkComponent(c: Component, s: string, total: nat, consumed: bool)
    requires c.Valid() && (s != "" ==> !IsLetter(s[0]))
    ensures Walk(c.Text() + s, total, consumed) == Walk(s, SaturatingAdd(total, Min(c.Seconds(), U64_MAX)), true)
  {
    assert c.unit[0] in c.unit;
    assert c.Text() + s == c.gap + (c.digits + (c.unit + s));
    SkipGap(c.gap, c.digits + (c.unit + s), total, consumed);
    WalkNumber(c.digits, c.unit + s, total, consumed);
    WalkWithUnit(c.unit, s, NumberOf(c.digits), total);
  }

  lemma {:induction false} NoLetterAfterGap(gap: string, s: string)
    requires AllWhitespace(gap) && (s != "" ==> !IsLetter(s[0]))
    ensures gap + s != "" ==> !IsLetter((gap + s)[0])
  {
    if gap != "" {
      assert gap[0] in gap;
    }
  }

  lemma {:induction false} NoLetterFirst(cs: seq<Component>, tail: Tail)
    requires AllValid(cs) && tail.Valid()
    ensures TextOf(cs, tail) != "" ==> !IsLetter(TextOf(cs, tail)[0])
  {
    if cs != [] {
      var c, rest := cs[0], TextOf(cs[1..], tail);
      assert c.Text() + rest == c.gap + (c.digits + (c.unit + rest));
      assert c.digits[0] in c.digits;
      NoLetterAfterGap(c.gap, c.digits + (c.unit + rest));
    } else if tail.Bare? {
      assert tail.digits[0] in tail.digits;
      NoLetterAfterGap(tail.gap, tail.digits + tail.ignored);
    } else {
      NoLetterAfterGap(tail.gap, "");
      assert tail.gap + "" == tail.gap;
    }
  }

  lemma {:induction false} WalkTail(tail: Tail, total: nat, consumed: bool)
    requires tail.Valid() && total <= U64_MAX && (tail.Bare? || consumed)
    ensures Walk(tail.Text(), total, consumed) == Ok(Min(total + tail.Seconds(), U64_MAX))
  {
    match tail
    case Blank(gap) =>
      SkipGap(gap, "", total, consumed);
      assert gap + "" == gap;
    case Bare(gap, digits, ignored) =>
      SkipGap(gap, digits + ignored, total, consumed);
      WalkNumber(digits, ignored, total, consumed);
  }

  lemma {:induction false} SaturatesOnce(total: nat, a: nat, b: nat)
    ensures Min(SaturatingAdd(total, Min(a, U64_MAX)) + b, U64_MAX) == Min(total + (a + b), U64_MAX)
  {
  }

  lemma {:induction false} WalkOneMore(c: Component, s: string, rest: nat, more: nat, total: nat, consumed: bool)
    requires c.Valid() && (s != "" ==> !IsLetter(s[0]))
    requires more == SaturatingAdd(total, Min(c.Seconds(), U64_MAX)) && Walk(s, more, true) == Ok(Min(more + rest, U64_MAX))
    ensures Walk(c.Text() + s, total, consumed) == Ok(Min(total + (c.Seconds() + rest), U64_MAX))
  {
    WalkComponent(c, s, total, consumed);
    SaturatesOnce(total, c.Seconds(), rest);
  }

  /** What is written is what is read, up to saturation. */
  lemma {:induction false} WalkReads(cs: seq<Component>, tail: Tail, total: nat, consumed: bool)
    requires AllValid(cs) && tail.Valid() && total <= U64_MAX
    requires cs != [] || tail.Bare? || consumed
    ensures Walk(TextOf(cs, tail), total, consumed) == Ok(Min(total + Total(cs, tail), U64_MAX))
    decreases |cs|
  {
    if cs == [] {
      WalkTail(tail, total, consumed);
    } else {
      var more := SaturatingAdd(total, Min(cs[0].Seconds(), U64_MAX));
      WalkReads(cs[1..], tail, more, true);
      WalkFirst(cs, tail, more, total, consumed);
    }
  }

  lemma {:induction false} WalkFirst(cs: seq<Component>, tail: Tail, more: nat, total: nat, consumed: bool)
    requires cs != [] && AllValid(cs) && AllValid(cs[1..]) && tail.Valid()
    requires more == SaturatingAdd(total, Min(cs[0].Seconds(), U64_MAX))
    requires Walk(TextOf(cs[1..], tail), more, true) == Ok(Min(more + Total(cs[1..], tail), U64_MAX))
    ensures Walk(TextOf(cs, tail), total, consumed) == Ok(Min(total + Total(cs, tail), U64_MAX))
  {
    NoLetterFirst(cs[1..], tail);
    WalkOneMore(cs[0], TextOf(cs[1..], tail), Total(cs[1..], tail), more, total, consumed);
  }

  // ---- What is read was written ----

  lemma {:induction false} LongerGap(c: char, gap: string)
    requires IsWhitespace(c) && AllWhitespace(gap)
    ensures AllWhitespace([c] + gap)
  {
  }

  lemma {:induction false} GapBefore(c: char, cs: seq<Component>, tail: Tail) returns (cs': seq<Component>, tail': Tail)
    requires IsWhitespace(c) && AllValid(cs) && tail.Valid()
    ensures AllValid(cs') && tail'.Valid() && TextOf(cs', tail') == [c] + TextOf(cs, tail)
    ensures cs' == [] <==> cs == []
    ensures tail'.Bare? <==> tail.Bare?
  {
    cs', tail' := cs, tail;
    if cs == [] {
      LongerGap(c, tail.gap);
      tail' := tail.(gap := [c] + tail.gap);
      assert tail'.Text() == [c] + tail.Text();
    } else {
      LongerGap(c, cs[0].gap);
      var first := cs[0].(gap := [c] + cs[0].gap);
      assert first.Text() == [c] + cs[0].Text();
      cs' := [first] + cs[1..];
      assert cs[0].Valid() && first.Valid();
      assert cs'[1..] == cs[1..];
    }
  }

  lemma {:induction false} WalkDecomposes(s: string, total: nat, consumed: bool) returns (cs: seq<Component>, tail: Tail)
    requires Walk(s, total, consumed).Ok?
    ensures AllValid(cs) && tail.Valid() && s == TextOf(cs, tail)
    ensures cs != [] || tail.Bare? || consumed
    decreases |s|
  {
    if s == "" {
      cs, tail := [], Blank("");
    } else if IsWhitespace(s[0]) {
      cs, tail := WalkDecomposes(s[1..], total, consumed);
      cs, tail := GapBefore(s[0], cs, tail);
    } else {
      var d := DigitSpan(s);
      var n, rest := NumberOf(s[..d]), s[d..];
      var u := LetterSpan(rest);
      if u == 0 {
        cs, tail := [], Bare("", s[..d], rest);
      } else {
        var k := UnitSeconds(rest[..u]).value;
        cs, tail := WalkDecomposes(rest[u..], SaturatingAdd(total, SaturatingMul(n, k)), true);
        var c := Component("", s[..d], rest[..u]);
        JoinComponent(c, cs, tail, s, d, u);
        cs := [c] + cs;
      }
    }
  }

  lemma {:induction false} JoinComponent(c: Component, cs: seq<Component>, tail: Tail, s: string, d: nat, u: nat)
    requires d + u <= |s| && c == Component("", s[..d], s[d..][..u])
    requires TextOf(cs, tail) == s[d..][u..]
    ensures TextOf([c] + cs, tail) == s
  {
    assert ([c] + cs)[1..] == cs;
    Rejoin(s, d);
    Rejoin(s[d..], u);
    assert c.Text() + TextOf(cs, tail) == c.digits + (c.unit + TextOf(cs, tail));
  }

  lemma {:induction false} Rejoin(s: string, k: nat)
    requires k <= |s|
    ensures s == s[..k] + s[k..]
  {
  }

  // ---- Parsing ----

  /** `t` writes numbers with units that add up to `v`, saturating. */
  ghost predicate Writes(t: string, v: nat) {
    exists cs, tail :: Reads(t, cs, tail) && v == Min(Total(cs, tail), 0xFFFF_FFFF_FFFF_FFFF)
  }

  lemma {:induction false} WalkIffWrites(t: string, v: nat)
    ensures Walk(t, 0, false) == Ok(v) <==> Writes(t, v)
  {
    if Writes(t, v) {
      WrittenWalks(t, v);
    }
    if Walk(t, 0, false) == Ok(v) {
      WalkedWrites(t, v);
    }
  }

  lemma {:induction false} WrittenWalks(t: string, v: nat)
    requires Writes(t, v)
    ensures Walk(t, 0, false) == Ok(v)
  {
    var cs, tail :| Reads(t, cs, tail) && v == Min(Total(cs, tail), 0xFFFF_FFFF_FFFF_FFFF);
    WalkReads(cs, tail, 0, false);
  }

  lemma {:induction false} WalkedWrites(t: string, v: nat)
    requires Walk(t, 0, false) == Ok(v)
    ensures Writes(t, v)
  {
    var cs, tail := WalkDecomposes(t, 0, false);
    WalkReads(cs, tail, 0, false);
    assert Reads(t, cs, tail);
  }

  /** The parser, step by step. */
  lemma {:induction false} ParseAs(input: string, trimmed: string, lower: string, whole: Option<int>, walked: Result<nat, TimeError>)
    requires trimmed == Trim(input) && lower == Lower(trimmed) && whole == ParseI64(trimmed) && walked == Walk(lower, 0, false)
    ensures ParseTime(input) ==
            if trimmed == "" then Err(EmptyValue)
            else if lower == "permanent" || lower == "infinite" || lower == "never" then Ok(PERMANENT)
            else if whole.Some? then Ok(if whole.value < 0 then PERMANENT else Lasting(whole.value))
            else if walked.Ok? then Ok(Lasting(walked.value))
            else Err(walked.error)
  {
  }

  lemma {:induction false} LastingByWalk(input: string, v: nat)
    ensures ParseTime(input) == Ok(Lasting(v)) <==>
            var trimmed := Trim(input);
            && trimmed != "" && Lower(trimmed) !in KEYWORDS
            && (if ParseI64(trimmed).Some? then ParseI64(trimmed) == Some(v)
                else Walk(Lower(trimmed), 0, false) == Ok(v))
  {
  }

  /** A text is a finite duration exactly when it is a plain integer that is not
      negative, or numbers with units in any letter case; the duration is the
      sum, at most the largest 64-bit number. */
  lemma {:induction false} LastingIff(input: string, v: nat)
    ensures ParseTime(input) == Ok(Lasting(v)) <==>
            var trimmed := Trim(input);
            && trimmed != "" && Lower(trimmed) !in {"permanent", "infinite", "never"}
            && (if ParseI64(trimmed).Some? then ParseI64(trimmed) == Some(v) else Writes(Lower(trimmed), v))
  {
    LastingByWalk(input, v);
    WalkIffWrites(Lower(Trim(input)), v);
  }

  lemma {:induction false} WalkedIsLasting(input: string)
    ensures Lower(Trim(input)) !in KEYWORDS && ParseI64(Trim(input)).None? ==> ParseTime(input) != Ok(PERMANENT)
  {
  }

  lemma {:induction false} IntegerOrWord(input: string)
    ensures Trim(input) != "" && (Lower(Trim(input)) in KEYWORDS || ParseI64(Trim(input)).Some?) ==>
              (ParseTime(input) == Ok(PERMANENT) <==>
               Lower(Trim(input)) in KEYWORDS || ParseI64(Trim(input)).value < 0)
  {
  }

  /** Only the three words and negative integers are permanent. */
  lemma {:induction false} PermanentIff(input: string)
    ensures ParseTime(input) == Ok(PERMANENT) <==>
            var trimmed := Trim(input);
            Lower(trimmed) in {"permanent", "infinite", "never"} || (ParseI64(trimmed).Some? && ParseI64(trimmed).value < 0)
  {
    if Trim(input) != "" {
      if Lower(Trim(input)) in KEYWORDS || ParseI64(Trim(input)).Some? {
        IntegerOrWord(input);
      } else {
        WalkedIsLasting(input);
      }
    }
  }

  lemma {:induction false} TrimTrimmed(s: string)
    requires Trimmed(s)
    ensures Trim(s) == s
  {
  }

  lemma {:induction false} KeywordsAreLetters(t: string)
    requires t in KEYWORDS
    ensures t != "" && !IsDigit(t[0])
  {
  }

  lemma {:induction false} DigitsAreTheirLower(digits: string)
    requires AllDigits(digits)
    ensures Lower(digits) == digits
  {
    forall i | 0 <= i < |digits|
      ensures Lower(digits)[i] == digits[i]
    {
      assert digits[i] in digits;
    }
  }

  lemma {:induction false} DigitsWalk(digits: string)
    requires digits != "" && AllDigits(digits)
    ensures Walk(digits, 0, false) ==
            if NumberOf(digits) <= U64_MAX then Ok(NumberOf(digits)) else Err(InvalidNumber(digits))
  {
    assert digits[0] in digits;
    DigitSpanIs(digits, "");
    assert digits + "" == digits;
    if NumberOf(digits) <= U64_MAX {
      WalkNumber(digits, "", 0, false);
    }
  }

  lemma {:induction false} DigitsI64(digits: string)
    requires digits != "" && AllDigits(digits)
    ensures ParseI64(digits) == if NumberOf(digits) <= I64_MAX then Some(NumberOf(digits)) else None
  {
    assert digits[0] in digits;
  }

  /** Digits alone are that many seconds, whether they fit a signed 64-bit
      number or only an unsigned one, and an error beyond. */
  lemma {:induction false} DigitsParse(digits: string)
    requires digits != "" && AllDigits(digits)
    ensures ParseTime(digits) ==
            if NumberOf(digits) <= 0xFFFF_FFFF_FFFF_FFFF then Ok(Lasting(NumberOf(digits))) else Err(InvalidNumber(digits))
  {
    assert digits[0] in digits && digits[|digits| - 1] in digits;
    TrimTrimmed(digits);
    DigitsAreTheirLower(digits);
    if digits in KEYWORDS {
      KeywordsAreLetters(digits);
    }
    DigitsWalk(digits);
    DigitsI64(digits);
  }

  function Decimal(n: nat): string {
    if n < 10 then [('0' as int + n) as char] else Decimal(n / 10) + [('0' as int + n % 10) as char]
  }

  lemma {:induction false} DecimalIsNumber(n: nat)
    ensures AllDigits(Decimal(n)) && Decimal(n) != "" && NumberOf(Decimal(n)) == n
  {
    if n >= 10 {
      DecimalIsNumber(n / 10);
      var s := Decimal(n);
      assert s[..|s| - 1] == Decimal(n / 10);
    } else {
      assert Decimal(n)[..0] == "";
    }
  }

  /** The decimal form of every unsigned 64-bit number reads back. */
  lemma {:induction false} DecimalRoundTrip(n: nat)
    requires n <= 0xFFFF_FFFF_FFFF_FFFF
    ensures ParseTime(Decimal(n)) == Ok(Lasting(n))
  {
    DecimalIsNumber(n);
    DigitsParse(Decimal(n));
  }

  lemma {:induction false} EndsInLetter(cs: seq<Component>)
    requires cs != [] && AllValid(cs)
    ensures var t := TextOf(cs, Blank("")); t != "" && IsLetter(t[|t| - 1])
    decreases |cs|
  {
    var c, rest := cs[0], TextOf(cs[1..], Blank(""));
    assert TextOf(cs, Blank("")) == c.Text() + rest;
    if |cs| > 1 {
      EndsInLetter(cs[1..]);
    } else {
      assert rest == "";
      assert c.Text() + "" == c.Text();
      assert c.Text()[|c.Text()| - 1] == c.unit[|c.unit| - 1];
      assert c.unit[|c.unit| - 1] in c.unit;
    }
  }

  lemma {:induction false} NoI64(t: string)
    requires t != "" && IsLetter(t[|t| - 1])
    ensures ParseI64(t).None?
  {
    var digits := if t[0] == '-' || t[0] == '+' then t[1..] else t;
    assert digits[|digits| - 1] == t[|t| - 1] && t[|t| - 1] in digits;
  }

  /** `t` is one or more components and nothing else; their sum is `v`, saturating. */
  ghost predicate Renders(t: string, v: nat) {
    exists cs: seq<Component> {:trigger AllValid(cs)} ::
      && AllValid(cs) && cs != [] && cs[0].gap == ""
      && t == TextOf(cs, Blank("")) && v == Min(Total(cs, Blank("")), 0xFFFF_FFFF_FFFF_FFFF)
  }

  /** Rendered components, in any letter case and inside any white space, parse
      to the sum of their lengths, or the largest number when that is too long. */
  lemma {:induction false} ComponentsParse(input: string, v: nat)
    requires Renders(Lower(Trim(input)), v)
    ensures ParseTime(input) == Ok(Lasting(v))
  {
    RenderedWalks(Lower(Trim(input)), v);
    WalksWhole(input, v);
  }

  lemma {:induction false} RenderedWalks(t: string, v: nat)
    requires Renders(t, v)
    ensures Walk(t, 0, false) == Ok(v)
    ensures t != "" && IsDigit(t[0]) && IsLetter(t[|t| - 1])
  {
    var cs: seq<Component> :| AllValid(cs) && cs != [] && cs[0].gap == ""
      && t == TextOf(cs, Blank("")) && v == Min(Total(cs, Blank("")), 0xFFFF_FFFF_FFFF_FFFF);
    ComponentsText(cs, t);
    WalkReads(cs, Blank(""), 0, false);
  }

  lemma {:induction false} ComponentsText(cs: seq<Component>, t: string)
    requires cs != [] && AllValid(cs) && cs[0].gap == "" && t == TextOf(cs, Blank(""))
    ensures t != "" && IsDigit(t[0]) && IsLetter(t[|t| - 1])
  {
    EndsInLetter(cs);
    StartsWithDigit(cs[0], TextOf(cs[1..], Blank("")));
  }

  lemma {:induction false} WalksWhole(input: string, v: nat)
    requires var t := Lower(Trim(input)); t != "" && IsDigit(t[0]) && IsLetter(t[|t| - 1]) && Walk(t, 0, false) == Ok(v)
    ensures ParseTime(input) == Ok(Lasting(v))
  {
    var t := Trim(input);
    assert IsLetter(t[|t| - 1]);
    NoI64(t);
    if Lower(t) in KEYWORDS {
      KeywordsAreLetters(Lower(t));
    }
    LastingByWalk(input, v);
  }

  lemma {:induction false} StartsWithDigit(c: Component, rest: string)
    requires c.Valid() && c.gap == ""
    ensures c.Text() + rest != "" && IsDigit((c.Text() + rest)[0])
  {
    assert c.digits[0] in c.digits;
    assert (c.Text() + rest)[0] == c.digits[0];
  }

  predicate AllLower(s: string) {
    forall i :: 0 <= i < |s| ==> 'a' <= s[i] <= 'z'
  }

  lemma {:induction false} TableIsLower(i: nat)
    requires i < |UNITS|
    ensures UNITS[i].0 != "" && AllLower(UNITS[i].0)
  {
  }

  lemma {:induction false} LowerIsLetters(s: string)
    requires AllLower(s)
    ensures AllLetters(s) && Lower(s) == s
  {
  }

  lemma {:induction false} NumberThenUnit(digits: string, unit: string, t: string)
    requires digits != "" && AllDigits(digits) && unit != "" && AllLower(unit) && t == digits + unit
    ensures Lower(t) == t && Trimmed(t) && t != "" && IsDigit(t[0]) && IsLetter(t[|t| - 1])
  {
    assert digits[0] in digits && t[0] == digits[0] && t[|t| - 1] == unit[|unit| - 1];
    forall i | 0 <= i < |t|
      ensures Lower(t)[i] == t[i]
    {
      assert i < |digits| ==> t[i] in digits;
    }
  }

  lemma {:induction false} WalksOneUnit(digits: string, unit: string, k: nat)
    requires IsNumber(digits) && unit != "" && AllLetters(unit) && UnitSeconds(unit) == Some(k)
    ensures Walk(digits + unit, 0, false) == Ok(Min(NumberOf(digits) * k, 0xFFFF_FFFF_FFFF_FFFF))
  {
    assert unit[0] in unit;
    WalkNumber(digits, unit, 0, false);
    WalkWithUnit(unit, "", NumberOf(digits), 0);
    assert unit + "" == unit;
  }

  /** A number and a unit, white space around them, are that many times the
      length of the unit. */
  lemma {:induction false} OneUnit(digits: string, unit: string, k: nat, left: string, right: string)
    requires IsNumber(digits) && Length(unit) == Some(k) && AllWhitespace(left) && AllWhitespace(right)
    ensures ParseTime(left + (digits + unit) + right) == Ok(Lasting(Min(NumberOf(digits) * k, 0xFFFF_FFFF_FFFF_FFFF)))
  {
    var i := TableHas(unit);
    TableIsLower(i);
    UnitIs(unit);
    OneUnitInBlanks(digits, unit, k, left, right);
  }

  lemma {:induction false} OneUnitInBlanks(digits: string, unit: string, k: nat, left: string, right: string)
    requires IsNumber(digits) && unit != "" && AllLower(unit) && UnitSeconds(unit) == Some(k)
    requires AllWhitespace(left) && AllWhitespace(right)
    ensures ParseTime(left + (digits + unit) + right) == Ok(Lasting(Min(NumberOf(digits) * k, 0xFFFF_FFFF_FFFF_FFFF)))
  {
    LowerIsLetters(unit);
    NumberThenUnit(digits, unit, digits + unit);
    WalksOneUnit(digits, unit, k);
    TrimPadded(left, digits + unit, right);
    WalksWhole(left + (digits + unit) + right, Min(NumberOf(digits) * k, 0xFFFF_FFFF_FFFF_FFFF));
  }

  // ---- Signs, letter case and white space ----

  /** A negative number is permanent, and zero is not, whatever its sign; a
      signed number that does not fit 64 bits is an error, and so is a sign alone. */
  lemma {:induction false} SignedParse(sign: char, digits: string, input: string)
    requires (sign == '-' || sign == '+') && AllDigits(digits) && input == [sign] + digits
    ensures ParseTime(input) ==
            if digits == "" then Err(ExpectedNumber)
            else if sign == '-' && 0 < NumberOf(digits) <= 0x8000_0000_0000_0000 then Ok(TimeValue(None, true))
            else if NumberOf(digits) <= 0x7FFF_FFFF_FFFF_FFFF then Ok(TimeValue(Some(NumberOf(digits)), false))
            else Err(ExpectedNumber)
  {
    assert digits != "" ==> digits[|digits| - 1] in digits;
    TrimTrimmed(input);
    SignedI64(sign, digits, input);
    var t := Lower(input);
    if t in KEYWORDS {
      KeywordsAreLetters(t);
    }
    assert t[0] == sign && Walk(t, 0, false) == Err(ExpectedNumber);
    ParseAs(input, input, t, ParseI64(input), Walk(t, 0, false));
  }

  lemma {:induction false} SignedI64(sign: char, digits: string, input: string)
    requires (sign == '-' || sign == '+') && AllDigits(digits) && input == [sign] + digits
    ensures ParseI64(input) ==
            if digits == "" then None
            else if sign == '-' && NumberOf(digits) <= 0x8000_0000_0000_0000 then Some(0 - NumberOf(digits))
            else if sign == '+' && NumberOf(digits) <= 0x7FFF_FFFF_FFFF_FFFF then Some(NumberOf(digits))
            else None
  {
    assert input[1..] == digits;
  }

  /** Letter case does not matter, and neither does white space around a text. */
  lemma {:induction false} SameInAnyCase(left: string, s: string, t: string, right: string)
    requires AllWhitespace(left) && AllWhitespace(right) && Trimmed(s) && |s| == |t|
    requires forall i :: 0 <= i < |s| ==> t[i] == s[i] || (IsLetter(s[i]) && IsLetter(t[i]) && (s[i] as int - t[i] as int) in {32, -32})
    ensures ParseTime(left + s + right) == ParseTime(t)
  {
    TrimPadded(left, s, right);
    SameTrimmed(s, t);
    SameLower(s, t);
    SameI64(s, t);
    ParseAs(left + s + right, s, Lower(s), ParseI64(s), Walk(Lower(s), 0, false));
    ParseAs(t, t, Lower(s), ParseI64(s), Walk(Lower(s), 0, false));
  }

  lemma {:induction false} SameTrimmed(s: string, t: string)
    requires Trimmed(s) && |s| == |t| && forall i :: 0 <= i < |s| ==> t[i] == s[i] || IsLetter(t[i])
    ensures Trim(t) == t
  {
    TrimTrimmed(t);
  }

  lemma {:induction false} SameLower(s: string, t: string)
    requires |s| == |t|
    requires forall i :: 0 <= i < |s| ==> t[i] == s[i] || (IsLetter(s[i]) && IsLetter(t[i]) && (s[i] as int - t[i] as int) in {32, -32})
    ensures Lower(s) == Lower(t)
  {
  }

  lemma {:induction false} SameI64(s: string, t: string)
    requires |s| == |t| && forall i :: 0 <= i < |s| ==> t[i] == s[i] || (IsLetter(s[i]) && IsLetter(t[i]))
    ensures ParseI64(s) == ParseI64(t)
  {
    if s != t {
      var i :| 0 <= i < |s| && s[i] != t[i];
      LetterI64(s, i);
      LetterI64(t, i);
    }
  }

  lemma {:induction false} LetterI64(s: string, i: nat)
    requires i < |s| && IsLetter(s[i])
    ensures ParseI64(s) == None
  {
    var digits := if s[0] == '-' || s[0] == '+' then s[1..] else s;
    assert s[i] in digits;
  }

  // ---- Errors ----

  /** Components and then some text. */
  function TextBefore(cs: seq<Component>, t: string): string {
    if cs == [] then t else cs[0].Text() + TextBefore(cs[1..], t)
  }

  predicate IsBigNumber(t: string, num: string, rest: string) {
    && t == num + rest && num != "" && AllDigits(num) && NumberOf(num) > 0xFFFF_FFFF_FFFF_FFFF
    && (rest != "" ==> !IsDigit(rest[0]))
  }

  predicate IsBadUnit(t: string, digits: string, unit: string, rest: string) {
    && t == digits + (unit + rest) && IsNumber(digits) && unit != "" && AllLetters(unit) && UnitSeconds(unit) == None
    && (rest != "" ==> !IsLetter(rest[0]))
  }

  /** What stands where a number with a unit should. */
  ghost predicate IsFault(t: string, e: TimeError) {
    match e
    case ExpectedNumber => t != "" && !IsWhitespace(t[0]) && !IsDigit(t[0])
    case InvalidNumber(num) => exists rest :: IsBigNumber(t, num, rest)
    case UnknownUnit(unit) => exists digits, rest :: IsBadUnit(t, digits, unit, rest)
    case _ => false
  }

  lemma {:induction false} DigitsFirst(digits: string, rest: string, t: string)
    requires t == digits + rest && digits != "" && AllDigits(digits)
    ensures t != "" && IsDigit(t[0]) && !IsWhitespace(t[0])
  {
    assert digits[0] in digits && t[0] == digits[0];
  }

  lemma {:induction false} FaultStarts(t: string, e: TimeError)
    requires IsFault(t, e)
    ensures t != "" && !IsWhitespace(t[0])
  {
    match e
    case ExpectedNumber =>
    case InvalidNumber(num) =>
      var rest :| IsBigNumber(t, num, rest);
      DigitsFirst(num, rest, t);
    case UnknownUnit(unit) =>
      var digits, rest :| IsBadUnit(t, digits, unit, rest);
      DigitsFirst(digits, unit + rest, t);
  }

  lemma {:induction false} BadUnitFails(t: string, digits: string, unit: string, rest: string, total: nat, consumed: bool)
    requires IsBadUnit(t, digits, unit, rest)
    ensures Walk(t, total, consumed) == Err(UnknownUnit(unit))
  {
    assert unit[0] in unit && (unit + rest)[0] == unit[0];
    WalkNumber(digits, unit + rest, total, consumed);
    LetterSpanIs(unit, rest);
  }

  lemma {:induction false} BigNumberFails(t: string, num: string, rest: string, total: nat, consumed: bool)
    requires IsBigNumber(t, num, rest)
    ensures Walk(t, total, consumed) == Err(InvalidNumber(num))
  {
    DigitsFirst(num, rest, t);
    DigitSpanIs(num, rest);
  }

  lemma {:induction false} FaultFails(t: string, e: TimeError, total: nat, consumed: bool)
    requires IsFault(t, e)
    ensures Walk(t, total, consumed) == Err(e)
  {
    match e
    case ExpectedNumber =>
    case InvalidNumber(num) =>
      var rest :| IsBigNumber(t, num, rest);
      BigNumberFails(t, num, rest, total, consumed);
    case UnknownUnit(unit) =>
      var digits, rest :| IsBadUnit(t, digits, unit, rest);
      BadUnitFails(t, digits, unit, rest, total, consumed);
  }

  /** Numbers with units, and then a fault. */
  ghost predicate IsFaulty(s: string, cs: seq<Component>, gap: string, t: string, e: TimeError) {
    && AllValid(cs) && AllWhitespace(gap) && IsFault(t, e) && s == TextBefore(cs, gap + t)
    && (cs != [] ==> gap + t != "" && !IsLetter((gap + t)[0]))
  }

  lemma {:induction false} NoLetterBefore(cs: seq<Component>, t: string)
    requires AllValid(cs) && (cs == [] ==> t != "" && !IsLetter(t[0]))
    ensures TextBefore(cs, t) != "" && !IsLetter(TextBefore(cs, t)[0])
  {
    if cs != [] {
      var c, rest := cs[0], TextBefore(cs[1..], t);
      assert c.Text() + rest == c.gap + (c.digits + (c.unit + rest));
      assert c.digits[0] in c.digits;
      NoLetterAfterGap(c.gap, c.digits + (c.unit + rest));
    }
  }

  lemma {:induction false} FaultyFails(cs: seq<Component>, gap: string, t: string, e: TimeError, total: nat, consumed: bool)
    requires AllValid(cs) && AllWhitespace(gap) && IsFault(t, e)
    requires cs != [] ==> gap + t != "" && !IsLetter((gap + t)[0])
    ensures Walk(TextBefore(cs, gap + t), total, consumed) == Err(e)
    decreases |cs|
  {
    if cs == [] {
      SkipGap(gap, t, total, consumed);
      FaultFails(t, e, total, consumed);
    } else {
      NoLetterBefore(cs[1..], gap + t);
      WalkComponent(cs[0], TextBefore(cs[1..], gap + t), total, consumed);
      FaultyFails(cs[1..], gap, t, e, SaturatingAdd(total, Min(cs[0].Seconds(), U64_MAX)), true);
    }
  }

  lemma {:induction false} NumberFault(s: string, d: nat, e: TimeError, total: nat, consumed: bool)
    requires s != "" && !IsWhitespace(s[0]) && d == DigitSpan(s) && Walk(s, total, consumed) == Err(e)
    requires d == 0 || NumberOf(s[..d]) > U64_MAX || (LetterSpan(s[d..]) > 0 && UnitSeconds(s[d..][..LetterSpan(s[d..])]).None?)
    ensures IsFault(s, e)
  {
    Rejoin(s, d);
    if d > 0 && NumberOf(s[..d]) > U64_MAX {
      assert e == InvalidNumber(s[..d]) && IsBigNumber(s, s[..d], s[d..]);
    } else if d > 0 {
      var rest := s[d..];
      var u := LetterSpan(rest);
      Rejoin(rest, u);
      assert rest[u..] != "" ==> rest[u..][0] == rest[u];
      assert IsBadUnit(s, s[..d], rest[..u], rest[u..]);
      assert e == UnknownUnit(rest[..u]);
    }
  }

  /** White space in front of a fault. */
  lemma {:induction false} FaultyGap(c: char, s: string, cs: seq<Component>, gap: string, t: string, e: TimeError)
    returns (cs': seq<Component>, gap': string)
    requires IsWhitespace(c) && IsFaulty(s, cs, gap, t, e)
    ensures IsFaulty([c] + s, cs', gap', t, e)
  {
    cs', gap' := cs, gap;
    if cs == [] {
      LongerGap(c, gap);
      gap' := [c] + gap;
      assert gap' + t == [c] + (gap + t);
    } else {
      LongerGap(c, cs[0].gap);
      var first := cs[0].(gap := [c] + cs[0].gap);
      assert first.Text() == [c] + cs[0].Text();
      cs' := [first] + cs[1..];
      assert cs[0].Valid() && first.Valid();
      assert cs'[1..] == cs[1..];
    }
  }

  lemma {:induction false} FaultyBehind(c: Component, rest: string, s: string, cs: seq<Component>, gap: string, t: string, e: TimeError)
    requires c.Valid() && c.gap == "" && s == c.digits + (c.unit + rest) && (rest != "" ==> !IsLetter(rest[0]))
    requires IsFaulty(rest, cs, gap, t, e)
    ensures IsFaulty(s, [c] + cs, gap, t, e)
  {
    FaultStarts(t, e);
    assert c.Text() + rest == s;
    assert ([c] + cs)[1..] == cs;
  }

  lemma {:induction false} FaultDecomposes(s: string, total: nat, consumed: bool, e: TimeError)
    returns (cs: seq<Component>, gap: string, t: string)
    requires Walk(s, total, consumed) == Err(e) && e != NoUnit
    ensures IsFaulty(s, cs, gap, t, e)
    decreases |s|
  {
    if IsWhitespace(s[0]) {
      cs, gap, t := FaultDecomposes(s[1..], total, consumed, e);
      cs, gap := FaultyGap(s[0], s[1..], cs, gap, t, e);
      assert s == [s[0]] + s[1..];
    } else {
      var d := DigitSpan(s);
      if d == 0 || NumberOf(s[..d]) > U64_MAX || UnitSeconds(s[d..][..LetterSpan(s[d..])]).None? {
        assert LetterSpan(s[d..]) > 0 || d == 0 || NumberOf(s[..d]) > U64_MAX;
        NumberFault(s, d, e, total, consumed);
        cs, gap, t := [], "", s;
        assert gap + t == s;
      } else {
        cs, gap, t := FaultBehind(s, d, total, consumed, e);
      }
    }
  }

  lemma {:induction false} FaultBehind(s: string, d: nat, total: nat, consumed: bool, e: TimeError)
    returns (cs: seq<Component>, gap: string, t: string)
    requires s != "" && !IsWhitespace(s[0]) && d == DigitSpan(s) && d > 0 && NumberOf(s[..d]) <= U64_MAX
    requires UnitSeconds(s[d..][..LetterSpan(s[d..])]).Some? && Walk(s, total, consumed) == Err(e) && e != NoUnit
    ensures IsFaulty(s, cs, gap, t, e)
    decreases |s|, 0
  {
    var rest := s[d..];
    var u := LetterSpan(rest);
    var c := Component("", s[..d], rest[..u]);
    cs, gap, t := FaultDecomposes(rest[u..], SaturatingAdd(total, SaturatingMul(NumberOf(s[..d]), UnitSeconds(rest[..u]).value)), true, e);
    Rejoin(s, d);
    Rejoin(rest, u);
    assert s == c.digits + (c.unit + rest[u..]);
    assert LetterSpan(rest) == u && (rest[u..] != "" ==> rest[u..][0] == rest[u]);
    FaultyBehind(c, rest[u..], s, cs, gap, t, e);
    cs := [c] + cs;
  }

  lemma {:induction false} NoUnitIsBlank(s: string, total: nat, consumed: bool)
    requires Walk(s, total, consumed) == Err(NoUnit)
    ensures s == "" || IsWhitespace(s[0])
    ensures !consumed
    decreases |s|
  {
    if s != "" && IsWhitespace(s[0]) {
      NoUnitIsBlank(s[1..], total, consumed);
    } else if s != "" {
      var d := DigitSpan(s);
      var rest := s[d..];
      var u := LetterSpan(rest);
      NoUnitIsBlank(rest[u..], SaturatingAdd(total, SaturatingMul(NumberOf(s[..d]), UnitSeconds(rest[..u]).value)), true);
      assert false;
    }
  }

  lemma {:induction false} NeverNoUnit(input: string)
    requires Trim(input) != ""
    ensures Walk(Lower(Trim(input)), 0, false) != Err(NoUnit)
  {
    var t := Lower(Trim(input));
    assert Trim(input)[0] == TrimStart(input)[0];
    if Walk(t, 0, false) == Err(NoUnit) {
      NoUnitIsBlank(t, 0, false);
    }
  }

  /** Numbers with units up to a fault. */
  ghost predicate Faulty(s: string, e: TimeError) {
    exists cs, gap, t :: IsFaulty(s, cs, gap, t, e)
  }

  lemma {:induction false} FaultyIff(s: string, e: TimeError)
    ensures Walk(s, 0, false) == Err(e) && e != NoUnit <==> Faulty(s, e)
  {
    if Faulty(s, e) {
      var cs, gap, t :| IsFaulty(s, cs, gap, t, e);
      FaultyFails(cs, gap, t, e, 0, false);
    }
    if Walk(s, 0, false) == Err(e) && e != NoUnit {
      var cs, gap, t := FaultDecomposes(s, 0, false, e);
    }
  }

  /** Which error a text is: empty, or numbers with units up to a fault. */
  lemma {:induction false} ErrorIff(input: string, e: TimeError)
    ensures ParseTime(input) == Err(e) <==>
            var trimmed := Trim(input);
            if trimmed == "" then e == EmptyValue
            else
              && Lower(trimmed) !in {"permanent", "infinite", "never"} && ParseI64(trimmed) == None
              && Faulty(Lower(trimmed), e)
  {
    var trimmed := Trim(input);
    var t := Lower(trimmed);
    var walked := Walk(t, 0, false);
    FaultyIff(t, e);
    ParseAs(input, trimmed, t, ParseI64(trimmed), walked);
    if trimmed != "" {
      NeverNoUnit(input);
    }
  }
}
