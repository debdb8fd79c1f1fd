/**
 What becomes of a ban of a given length: it lasts as long, it is over at once,
 or the jail panics over it.
 */
module BanFate {
  import opened Prelude
  import opened Numbers
  import opened Failures
  import opened BanManager
  import opened JailTask
  import B = Bantime

  datatype Fate =
    | Lasts
    | OverAtOnce
    | PanicsWhenMade
    | PanicsWhenAsked

  /** A ticket that `issue_ban` or `manual_ban` makes at `now`. */
  predicate MadeAt(t: BanTicket, secs: nat, now: int) {
    Duration(secs).Some? && t.timeOfBan == now && t.bantime == Duration(secs)
  }

  /** The ban is over exactly from `secs` seconds after `now`. */
  ghost predicate LastsExactly(t: BanTicket, secs: nat, now: int) {
    t.HasExpiry() && forall at :: t.IsExpired(at) <==> at >= now + secs * NANOS
  }

  /** The length alone decides: up to the longest duration and the calendar's
      end it is kept; lengths that are negative as signed numbers are over
      before they begin, unless they reach back before the calendar. */
  function FateOf(secs: nat, now: int): Fate {
    if secs <= MAX_SECONDS then (if now + secs * NANOS <= CALENDAR_END then Lasts else PanicsWhenAsked)
    else if secs < U64 - MAX_SECONDS then PanicsWhenMade
    else if now - (U64 - secs) * NANOS >= CALENDAR_START then OverAtOnce
    else PanicsWhenAsked
  }

  lemma {:induction false} DurationExists(secs: nat)
    requires secs <= U64_MAX
    ensures Duration(secs).Some? <==> secs <= MAX_SECONDS || secs >= U64 - MAX_SECONDS
    ensures Duration(secs).Some? ==> Duration(secs).value == if secs <= MAX_SECONDS then secs else secs - U64
  {
  }

  /** The fate of every ban, for every length and any date. A permanent ban is
      the largest number, and so over the moment it is made. */
  lemma {:induction false} FateIsRight(secs: nat, now: int)
    requires secs <= U64_MAX && InCalendar(now)
    ensures FateOf(secs, now).PanicsWhenMade? <==> Duration(secs).None?
    ensures forall t :: MadeAt(t, secs, now) ==>
              && (FateOf(secs, now).PanicsWhenAsked? <==> !t.HasExpiry())
              && (FateOf(secs, now).Lasts? <==> LastsExactly(t, secs, now))
              && (FateOf(secs, now).OverAtOnce? ==> t.HasExpiry() && t.IsExpired(now))
  {
    DurationExists(secs);
    forall t | MadeAt(t, secs, now)
      ensures FateOf(secs, now).PanicsWhenAsked? <==> !t.HasExpiry()
      ensures FateOf(secs, now).Lasts? <==> LastsExactly(t, secs, now)
      ensures FateOf(secs, now).OverAtOnce? ==> t.HasExpiry() && t.IsExpired(now)
    {
      if secs > MAX_SECONDS {
        assert t.Expires() == Some(now - (U64 - secs) * NANOS);
        assert t.IsExpired(now) && !(now >= now + secs * NANOS);
      } else {
        assert t.Expires() == Some(now + secs * NANOS);
      }
    }
  }

  /** The tickets of both kinds of bans are made so. */
  lemma {:induction false} BothAreMade(fail: FailTicket, m: MatchResult, ip: string, parsed: Option<string>, secs: nat, now: int)
    requires Duration(secs).Some?
    ensures MadeAt(TicketFromFail(fail, m, Duration(secs).value, now), secs, now)
    ensures MadeAt(ManualTicket(ip, parsed, Duration(secs).value, now), secs, now)
  {
  }

  /** The length that escalation asks for, without saturation. */
  function Asked(config: B.BantimeConfig, count: nat): nat {
    B.ToSecondsOrMax(config.bantime) * Pow(Max(config.factor, 1), count)
  }

  function Cap(config: B.BantimeConfig): nat {
    if config.maxtime.Some? then B.ToSecondsOrMax(config.maxtime.value) else U64_MAX
  }

  /** An escalated ban is kept exactly when the length asked for, or the cap,
      fits the duration and the calendar. Saturation never gives a long ban: it
      gives one that is over at once, and before that come lengths that panic. */
  lemma {:induction false} EscalationFate(config: B.BantimeConfig, count: nat, random: nat, now: int)
    requires config.Valid() && config.increment && config.rndtime.None? && count < U32 && InCalendar(now)
    ensures var secs := B.ComputeBantime(config, count, random);
            && secs == Min(Min(Asked(config, count), U64_MAX), Cap(config))
            && (FateOf(secs, now).Lasts? <==>
                  Min(Asked(config, count), Cap(config)) <= Min(MAX_SECONDS, (CALENDAR_END - now) / NANOS))
    ensures Asked(config, count) >= U64_MAX && Cap(config) == U64_MAX && now - NANOS >= CALENDAR_START ==>
              FateOf(B.ComputeBantime(config, count, random), now).OverAtOnce?
  {
    B.EscalatedExact(config, count);
    var secs := B.ComputeBantime(config, count, random);
    assert now + secs * NANOS <= CALENDAR_END <==> secs <= (CALENDAR_END - now) / NANOS;
  }
}
