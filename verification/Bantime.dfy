/** How long a ban lasts. */
module Bantime {
  import opened Prelude
  import opened Numbers

  /** Durations are whole seconds; `None` is a permanent one. `factor` is a
      32-bit and the durations are 64-bit numbers. */
  datatype BantimeConfig = BantimeConfig(
    bantime: Option<nat>,
    increment: bool,
    factor: nat,
    maxtime: Option<Option<nat>>,
    rndtime: Option<Option<nat>>)
  {
    predicate Valid() {
      && InRange(bantime) && factor < U32
      && (maxtime.Some? ==> InRange(maxtime.value))
      && (rndtime.Some? ==> InRange(rndtime.value))
    }
  }

  predicate InRange(duration: Option<nat>) {
    duration.Some? ==> duration.value <= U64_MAX
  }

  /** `TimeValue::to_seconds_or_max` */
  function ToSecondsOrMax(duration: Option<nat>): nat {
    match duration
    case Some(s) => s
    case None => U64_MAX
  }

  /** The ban time after `count` earlier bans, before jitter. The count is cut
      to 32 bits. */
  function Escalated(config: BantimeConfig, count: nat): nat {
    var base := ToSecondsOrMax(config.bantime);
    var factor := Max(config.factor, 1);
    var escalated := SaturatingMul(base, SaturatingPow(factor, count % U32));
    match config.maxtime
    case Some(max) => Min(escalated, ToSecondsOrMax(max))
    case None => escalated
  }

  /** `compute_bantime`: `random` stands for the generator's draw below the
      jitter bound. The sum wraps around. */
  function ComputeBantime(config: BantimeConfig, count: nat, random: nat): nat {
    if !config.increment then ToSecondsOrMax(config.bantime)
    else
      var escalated := Escalated(config, count);
      if config.rndtime.Some? && ToSecondsOrMax(config.rndtime.value) > 0 then
        (escalated + random % ToSecondsOrMax(config.rndtime.value)) % U64
      else escalated
  }

  /** Saturation is invisible: base times factor to the count, cut at the
      64-bit maximum and at the configured one. */
  lemma EscalatedExact(config: BantimeConfig, count: nat)
    requires config.Valid() && count < U32
    ensures Escalated(config, count) ==
            Min(Min(ToSecondsOrMax(config.bantime) * Pow(Max(config.factor, 1), count), U64_MAX),
                if config.maxtime.Some? then ToSecondsOrMax(config.maxtime.value) else U64_MAX)
  {
    assert count % U32 == count;
    SaturatingMulPow(ToSecondsOrMax(config.bantime), Max(config.factor, 1), count);
  }

  /** More earlier bans never shorten the next one. */
  lemma EscalatedMonotone(config: BantimeConfig, fewer: nat, more: nat)
    requires config.Valid() && fewer <= more < U32
    ensures Escalated(config, fewer) <= Escalated(config, more)
  {
    EscalatedExact(config, fewer);
    EscalatedExact(config, more);
    PowMonotone(Max(config.factor, 1), fewer, more);
    MulMonotone(Pow(Max(config.factor, 1), fewer), Pow(Max(config.factor, 1), more), ToSecondsOrMax(config.bantime));
  }

  // ---- The length of every ban ----

  /** A configured duration in seconds, a permanent one as the largest number. */
  function Configured(duration: Option<nat>): nat {
    if duration.Some? then duration.value else 0xFFFF_FFFF_FFFF_FFFF
  }

  /** `secs` is the length of a ban after `count` earlier ones with this draw.
      Without increment that is the configured length whatever the history.
      With it: base times factor to the count, cut at 64 bits and at the cap,
      plus the draw below the jitter bound, wrapping at 64 bits. */
  predicate IsLength(config: BantimeConfig, count: nat, random: nat, secs: nat) {
    var base := Configured(config.bantime);
    if !config.increment then secs == base
    else
      var grown := base * Pow(if config.factor == 0 then 1 else config.factor, count % 0x1_0000_0000);
      var fits := if grown > 0xFFFF_FFFF_FFFF_FFFF then 0xFFFF_FFFF_FFFF_FFFF else grown;
      var capped := if config.maxtime.Some? && Configured(config.maxtime.value) < fits
                    then Configured(config.maxtime.value) else fits;
      var bound := if config.rndtime.Some? then Configured(config.rndtime.value) else 0;
      if bound == 0 then secs == capped
      else if capped + random % bound <= 0xFFFF_FFFF_FFFF_FFFF then secs == capped + random % bound
      else secs == capped + random % bound - 0x1_0000_0000_0000_0000
  }

  lemma {:induction false} LengthIsRight(config: BantimeConfig, count: nat, random: nat)
    requires config.Valid()
    ensures IsLength(config, count, random, ComputeBantime(config, count, random))
  {
    var factor := Max(config.factor, 1);
    SaturatingMulPow(ToSecondsOrMax(config.bantime), factor, count % U32);
    EscalatedInRange(config, count);
    if config.rndtime.Some? && ToSecondsOrMax(config.rndtime.value) > 0 {
      WrapOnce(Escalated(config, count) + random % ToSecondsOrMax(config.rndtime.value));
    }
  }

  lemma {:induction false} WrapOnce(sum: nat)
    requires sum < 2 * U64
    ensures sum % U64 == if sum < U64 then sum else sum - U64
  {
  }

  /** The next ban is longer than the base exactly when some earlier ban is
      counted, the factor does something, and neither the base nor the cap is
      in the way. */
  lemma {:induction false} LongerIff(config: BantimeConfig, count: nat)
    requires config.Valid()
    ensures var base := ToSecondsOrMax(config.bantime);
            Escalated(config, count) > base <==>
              && count % U32 > 0 && config.factor >= 2 && 0 < base < U64_MAX
              && (config.maxtime.Some? ==> base < ToSecondsOrMax(config.maxtime.value))
  {
    var base, n := ToSecondsOrMax(config.bantime), count % U32;
    var factor := Max(config.factor, 1);
    SaturatingMulPow(base, factor, n);
    if n > 0 {
      PowMonotone(factor, 1, n);
      assert Pow(factor, 1) == factor * Pow(factor, 0) == factor;
      if factor >= 2 {
        MulMonotone(2, Pow(factor, n), base);
      } else {
        PowOne(n);
      }
    } else {
      assert Pow(factor, 0) == 1;
    }
  }

  /** ... until the count no longer fits 32 bits: then it starts over. */
  lemma EscalationStartsOver(config: BantimeConfig)
    requires config.Valid() && config.bantime == Some(1) && config.factor == 2 && config.maxtime.None?
    ensures Escalated(config, U32) < Escalated(config, 1)
  {
    assert Pow(2, 1) == 2 * Pow(2, 0);
    assert U32 % U32 == 0;
  }

  /** Jitter adds less than its bound exactly when the sum fits 64 bits; else it
      wraps to less than what it was added to. */
  lemma JitterAdds(config: BantimeConfig, count: nat, random: nat)
    requires config.Valid() && config.increment
    requires config.rndtime.Some? && ToSecondsOrMax(config.rndtime.value) > 0
    ensures var escalated, bound := Escalated(config, count), ToSecondsOrMax(config.rndtime.value);
            escalated <= ComputeBantime(config, count, random) < escalated + bound <==>
            escalated + random % bound <= U64_MAX
  {
    EscalatedInRange(config, count);
    var escalated, bound := Escalated(config, count), ToSecondsOrMax(config.rndtime.value);
    var sum := escalated + random % bound;
    if sum > U64_MAX {
      assert sum % U64 == sum - U64;
    }
  }

  lemma EscalatedInRange(config: BantimeConfig, count: nat)
    requires config.Valid()
    ensures Escalated(config, count) <= U64_MAX
  {
  }
}
