/** Durations such as `1d12h`, `3600`, `-1` or `permanent`. */
module TimeValues {
  import opened Prelude
  import opened Text
  import opened Numbers

  /** `seconds` is absent for a permanent duration. */
  datatype TimeValue = TimeValue(seconds: Option<nat>, permanent: bool) {
    function ToSecondsOrMax(): nat {
      match seconds
      case Some(n) => n
      case None => U64_MAX
    }
  }

  const PERMANENT := TimeValue(None, true)

  function Lasting(seconds: nat): TimeValue {
    TimeValue(Some(seconds), false)
  }

  datatype TimeError =
    | EmptyValue
    | ExpectedNumber
    | InvalidNumber(num: string)
    | UnknownUnit(unit: string)
    | NoUnit

  // ---- Numbers and letters ----

  predicate IsDigit(c: char) {
    '0' <= c <= '9'
  }

  predicate IsLetter(c: char) {
    'a' <= c <= 'z' || 'A' <= c <= 'Z'
  }

  predicate AllDigits(s: string) {
    forall c <- s :: IsDigit(c)
  }

  predicate AllLetters(s: string) {
    forall c <- s :: IsLetter(c)
  }

  function LowerChar(c: char): char {
    if 'A' <= c <= 'Z' then (c as int + 32) as char else c
  }

  /** `to_ascii_lowercase` */
  function Lower(s: string): (t: string)
    ensures |t| == |s| && forall i :: 0 <= i < |s| ==> t[i] == LowerChar(s[i])
  {
    if s == "" then "" else [LowerChar(s[0])] + Lower(s[1..])
  }

  /** The number that digits write, most significant first. */
  function NumberOf(digits: string): nat
    requires AllDigits(digits)
  {
    if digits == "" then 0
    else
      assert digits[|digits| - 1] in digits;
      10 * NumberOf(digits[..|digits| - 1]) + (digits[|digits| - 1] as int - '0' as int)
  }

  /** `str::parse::<u64>` of digits. */
  function ParseU64(digits: string): Option<nat>
    requires AllDigits(digits)
  {
    if digits == "" || NumberOf(digits) > U64_MAX then None else Some(NumberOf(digits))
  }

  /** `str::parse::<i64>`: digits with an optional sign, in range. */
  function ParseI64(s: string): Option<int> {
    var signed := s != "" && (s[0] == '-' || s[0] == '+');
    var digits := if signed then s[1..] else s;
    if digits == "" || !AllDigits(digits) then None
    else
      var n: int := if s[0] == '-' then 0 - NumberOf(digits) else NumberOf(digits);
      if 0 <= n + I64_MAX + 1 && n <= I64_MAX then Some(n) else None
  }

  function DigitSpan(s: string): (n: nat)
    ensures n <= |s| && AllDigits(s[..n])
    ensures n < |s| ==> !IsDigit(s[n])
  {
    if s == "" || !IsDigit(s[0]) then 0
    else
      assert s[..1 + DigitSpan(s[1..])] == [s[0]] + s[1..][..DigitSpan(s[1..])];
      1 + DigitSpan(s[1..])
  }

  function LetterSpan(s: string): (n: nat)
    ensures n <= |s| && AllLetters(s[..n])
    ensures n < |s| ==> !IsLetter(s[n])
  {
    if s == "" || !IsLetter(s[0]) then 0
    else
      assert s[..1 + LetterSpan(s[1..])] == [s[0]] + s[1..][..LetterSpan(s[1..])];
      1 + LetterSpan(s[1..])
  }

  const UNITS: seq<(string, nat)> := [
    ("y", 365 * 86400), ("year", 365 * 86400), ("years", 365 * 86400),
    ("mo", 30 * 86400), ("month", 30 * 86400), ("months", 30 * 86400),
    ("w", 7 * 86400), ("week", 7 * 86400), ("weeks", 7 * 86400),
    ("d", 86400), ("day", 86400), ("days", 86400),
    ("h", 3600), ("hour", 3600), ("hours", 3600),
    ("m", 60), ("min", 60), ("minute", 60), ("minutes", 60),
    ("s", 1), ("sec", 1), ("second", 1), ("seconds", 1)]

  const KEYWORDS: seq<string> := ["permanent", "infinite", "never"]

  function UnitIn(units: seq<(string, nat)>, unit: string): Option<nat> {
    if units == [] then None else if units[0].0 == unit then Some(units[0].1) else UnitIn(units[1..], unit)
  }

  function UnitSeconds(unit: string): Option<nat> {
    UnitIn(UNITS, unit)
  }

  // ---- Parsing ----

  /** Reading `s` with `total` seconds read before it. */
  function Walk(s: string, total: nat, consumed: bool): Result<nat, TimeError>
    decreases |s|, 0
  {
    if s == "" then (if consumed then Ok(total) else Err(NoUnit))
    else if IsWhitespace(s[0]) then Walk(s[1..], total, consumed)
    else
      var d := DigitSpan(s);
      if d == 0 then Err(ExpectedNumber)
      else
        match ParseU64(s[..d])
        case None => Err(InvalidNumber(s[..d]))
        case Some(n) => WalkUnit(s[d..], n, total)
  }

  /** Reading the unit of a number `n`; a number without one ends the walk. */
  function WalkUnit(s: string, n: nat, total: nat): Result<nat, TimeError>
    decreases |s|, 1
  {
    var u := LetterSpan(s);
    if u == 0 then Ok(SaturatingAdd(total, n))
    else
      match UnitSeconds(s[..u])
      case None => Err(UnknownUnit(s[..u]))
      case Some(k) => Walk(s[u..], SaturatingAdd(total, SaturatingMul(n, k)), true)
  }

  function ParseTime(input: string): Result<TimeValue, TimeError> {
    var trimmed := Trim(input);
    if trimmed == "" then Err(EmptyValue)
    else if Lower(trimmed) in KEYWORDS then Ok(PERMANENT)
    else
      match ParseI64(trimmed)
      case Some(n) => Ok(if n < 0 then PERMANENT else Lasting(n))
      case None =>
        match Walk(Lower(trimmed), 0, false)
        case Ok(total) => Ok(Lasting(total))
        case Err(e) => Err(e)
  }

  lemma {:induction false} DigitSpanIs(num: string, rest: string)
    requires AllDigits(num) && (rest != "" ==> !IsDigit(rest[0]))
    ensures DigitSpan(num + rest) == |num| && (num + rest)[..|num|] == num && (num + rest)[|num|..] == rest
    decreases |num|
  {
    if num == "" {
      assert num + rest == rest;
    } else {
      assert num[0] in num;
      DigitSpanIs(num[1..], rest);
      assert (num + rest)[1..] == num[1..] + rest;
    }
  }

  lemma {:induction false} LetterSpanIs(unit: string, rest: string)
    requires AllLetters(unit) && (rest != "" ==> !IsLetter(rest[0]))
    ensures LetterSpan(unit + rest) == |unit| && (unit + rest)[..|unit|] == unit && (unit + rest)[|unit|..] == rest
    decreases |unit|
  {
    if unit == "" {
      assert unit + rest == rest;
    } else {
      assert unit[0] in unit;
      LetterSpanIs(unit[1..], rest);
      assert (unit + rest)[1..] == unit[1..] + rest;
    }
  }

  method Parse(input: string) returns (r: Result<TimeValue, TimeError>)
    ensures r == ParseTime(input)
  {
    var trimmed := Trim(input);
    if trimmed == "" {
      return Err(EmptyValue);
    }
    var lower := Lower(trimmed);
    if lower in KEYWORDS {
      return Ok(PERMANENT);
    }
    var whole := ParseI64(trimmed);
    if whole.Some? {
      return Ok(if whole.value < 0 then PERMANENT else Lasting(whole.value));
    }
    var total, rest, consumed := 0, lower, false;
    while rest != ""
      invariant Walk(lower, 0, false) == Walk(rest, total, consumed)
      decreases |rest|
    {
      if IsWhitespace(rest[0]) {
        rest := rest[1..];
        continue;
      }
      ghost var from := rest;
      var num;
      num, rest := TakeDigits(rest);
      if num == "" {
        return Err(ExpectedNumber);
      }
      var n := ParseU64(num);
      if n.None? {
        return Err(InvalidNumber(num));
      }
      assert Walk(from, total, consumed) == WalkUnit(rest, n.value, total);
      var unit;
      unit, rest := TakeLetters(rest);
      if unit == "" {
        return Ok(Lasting(SaturatingAdd(total, n.value)));
      }
      var seconds := UnitSeconds(unit);
      if seconds.None? {
        return Err(UnknownUnit(unit));
      }
      total, consumed := SaturatingAdd(total, SaturatingMul(n.value, seconds.value)), true;
    }
    if !consumed {
      return Err(NoUnit);
    }
    r := Ok(Lasting(total));
  }

  method TakeDigits(s: string) returns (num: string, rest: string)
    ensures num == s[..DigitSpan(s)] && rest == s[DigitSpan(s)..]
  {
    num, rest := "", s;
    while rest != "" && IsDigit(rest[0])
      invariant s == num + rest && AllDigits(num)
      decreases |rest|
    {
      Advance(s, num, rest);
      num, rest := num + [rest[0]], rest[1..];
    }
    DigitSpanIs(num, rest);
  }

  method TakeLetters(s: string) returns (unit: string, rest: string)
    ensures unit == s[..LetterSpan(s)] && rest == s[LetterSpan(s)..]
  {
    unit, rest := "", s;
    while rest != "" && IsLetter(rest[0])
      invariant s == unit + rest && AllLetters(unit)
      decreases |rest|
    {
      Advance(s, unit, rest);
      unit, rest := unit + [rest[0]], rest[1..];
    }
    LetterSpanIs(unit, rest);
  }
}
