// Settings of a 16-bit timer: a prescaler and a number of ticks, for a number
// of cycles of the system clock, or for a duration.

module Timers {
  import opened Ints

  datatype ClockPrescaling = Disabled | DivideBy1 | DivideBy8 | DivideBy64 | DivideBy256 | DivideBy1024

  datatype ClockAndTicks = ClockAndTicks(clockSelect: ClockPrescaling, clockTicks: uint16)

  const F_CPU := 16_000_000
  const MAX_CLOCK_TICKS := 65535
  const MAX_SYSTEM_CLOCK_CYCLES := 65535 * 1024

  function ToClockDivisor(p: ClockPrescaling): nat {
    match p
    case Disabled => 0
    case DivideBy1 => 1
    case DivideBy8 => 8
    case DivideBy64 => 64
    case DivideBy256 => 256
    case DivideBy1024 => 1024
  }

  function ToSystemClockCycles(c: ClockAndTicks): nat { c.clockTicks * ToClockDivisor(c.clockSelect) }

  // MAX_CLOCK_TICKS * divisor, in an int of 32 bits or of 16 (unsigned, since one
  // operand is).
  function Limit(divisor: nat, wide: bool): nat {
    if wide then MAX_CLOCK_TICKS * divisor else MAX_CLOCK_TICKS * divisor % 0x1_0000
  }

  // A conversion to 16 bits.
  function Narrow(n: nat): uint16 { n % 0x1_0000 }

  function FromSystemClockCycles(cycles: uint32, wide: bool): ClockAndTicks {
    if cycles <= MAX_CLOCK_TICKS then
      if cycles == 0 then ClockAndTicks(Disabled, 0) else ClockAndTicks(DivideBy1, Narrow(cycles))
    else if cycles <= Limit(8, wide) then ClockAndTicks(DivideBy8, Narrow(cycles / 8))
    else if cycles <= Limit(64, wide) then ClockAndTicks(DivideBy64, Narrow(cycles / 64))
    else if cycles <= Limit(256, wide) then ClockAndTicks(DivideBy256, Narrow(cycles / 256))
    else if cycles <= Limit(1024, wide) then ClockAndTicks(DivideBy1024, Narrow(cycles / 1024))
    else ClockAndTicks(Disabled, 0)
  }

  // With 32-bit arithmetic, as on the host.
  function FromCycles(cycles: uint32): ClockAndTicks { FromSystemClockCycles(cycles, true) }

  // Products and sums of unsigned numbers of 32 bits.
  function Wrap(n: nat): uint32 { n % 0x1_0000_0000 }

  function FromMicroSeconds(us: uint32): ClockAndTicks { FromCycles(Wrap(F_CPU / 100000 * us) / 10) }

  const SHORT_PERIOD_LIMIT := 0xFFFF_FFFF / (F_CPU / 100000)
  const HALF_CYCLE_NS := 500_000_000 / F_CPU

  function FromNanoSeconds(ns: uint32): ClockAndTicks {
    if Wrap(ns + HALF_CYCLE_NS) >= SHORT_PERIOD_LIMIT then FromMicroSeconds(Wrap(ns + 500) / 1000)
    else FromCycles(Wrap(F_CPU / 100000 * Wrap(ns + HALF_CYCLE_NS)) / 10000)
  }

  function FromIntegerEventsPerSecond(events: uint16): ClockAndTicks {
    if events > 0 then FromCycles(F_CPU / events) else ClockAndTicks(Disabled, 0)
  }

  // ------------------------------------------------------------- Quantisation

  // Dividing by a divisor for which the number fits.
  lemma Quantise(cycles: nat, d: nat)
    requires d == 1 || d == 8 || d == 64 || d == 256 || d == 1024
    requires d <= cycles <= MAX_CLOCK_TICKS * d
    ensures Narrow(cycles / d) == cycles / d > 0 && cycles / d * d <= cycles < cycles / d * d + d
  {
  }

  function Divisor(cycles: nat): nat {
    if cycles <= MAX_CLOCK_TICKS then 1 else if cycles <= MAX_CLOCK_TICKS * 8 then 8
    else if cycles <= MAX_CLOCK_TICKS * 64 then 64 else if cycles <= MAX_CLOCK_TICKS * 256 then 256 else 1024
  }

  // The setting for a number of cycles in range is the number divided by the least divisor.
  lemma SettingIs(cycles: uint32)
    requires 0 < cycles <= MAX_SYSTEM_CLOCK_CYCLES
    ensures var c, d := FromCycles(cycles), Divisor(cycles);
      ToClockDivisor(c.clockSelect) == d && c.clockTicks == cycles / d > 0
      && cycles / d * d <= cycles < cycles / d * d + d
  {
    Quantise(cycles, Divisor(cycles));
    hide Narrow;
  }

  // The setting for a number of cycles, when there is one, undershoots by less
  // than the divisor; none fits if and only if the number is 0 or out of range.
  lemma CyclesAreQuantised(cycles: uint32)
    ensures var c := FromCycles(cycles); var d := ToClockDivisor(c.clockSelect);
      && (c.clockSelect.Disabled? <==> cycles == 0 || cycles > MAX_SYSTEM_CLOCK_CYCLES)
      && (!c.clockSelect.Disabled? ==> c.clockTicks > 0 && ToSystemClockCycles(c) <= cycles < ToSystemClockCycles(c) + d)
  {
    if 0 < cycles <= MAX_SYSTEM_CLOCK_CYCLES {
      SettingIs(cycles);
      hide FromCycles;
    }
  }

  // It uses the least divisor for which the number fits.
  lemma LeastPrescaler(cycles: uint32, p: ClockPrescaling)
    requires 0 < cycles <= MAX_SYSTEM_CLOCK_CYCLES && !p.Disabled?
    ensures cycles <= MAX_CLOCK_TICKS * ToClockDivisor(p) <==>
      ToClockDivisor(FromCycles(cycles).clockSelect) <= ToClockDivisor(p)
  {
  }

  // The cycles that a setting stands for are represented exactly,
  lemma QuantisedOnce(cycles: uint32)
    ensures var n := ToSystemClockCycles(FromCycles(cycles));
      n <= cycles && ToSystemClockCycles(FromCycles(n)) == n
  {
    var n := ToSystemClockCycles(FromCycles(cycles));
    CyclesAreQuantised(cycles);
    if n > 0 {
      SettingIs(cycles);
      SettingIs(n);
      hide FromCycles;
      DividesExactly(cycles / Divisor(cycles), Divisor(cycles), Divisor(n));
    }
  }

  predicate IsDivisor(d: nat) { d == 1 || d == 8 || d == 64 || d == 256 || d == 1024 }

  lemma ExactQuotient(k: nat, d: nat)
    requires IsDivisor(d)
    ensures k * d / d == k
  {
    if d == 8 {
      assert k * 8 / 8 == k;
    } else if d == 64 {
      assert k * 64 / 64 == k;
    } else if d == 256 {
      assert k * 256 / 256 == k;
    } else if d == 1024 {
      assert k * 1024 / 1024 == k;
    }
  }

  lemma DividesExactly(k: nat, d: nat, e: nat)
    requires IsDivisor(d) && IsDivisor(e) && e <= d
    ensures k * d / e * e == k * d
  {
    var m := d / e;
    assert d == m * e;
    Associative(k, m, e);
    ExactQuotient(k * m, e);
  }

  lemma Associative(k: nat, m: nat, e: nat)
    ensures k * (m * e) == k * m * e
  {
  }

  // Just above what fits a smaller divisor, and rounded down to what does.
  predicate FallsBack(cycles: nat) {
    524281 <= cycles <= 524287 || 4194241 <= cycles <= 4194303 || 16776961 <= cycles <= 16777215
  }

  lemma SmallerDivisor(cycles: uint32, n: nat)
    requires 0 < cycles <= MAX_SYSTEM_CLOCK_CYCLES && n == cycles / Divisor(cycles) * Divisor(cycles)
    ensures Divisor(n) == Divisor(cycles) <==> !FallsBack(cycles)
  {
  }

  // though perhaps with a smaller divisor: by the same setting for all numbers of
  // cycles but those in three short ranges.
  lemma QuantisedAgain(cycles: uint32)
    requires 0 < cycles <= MAX_SYSTEM_CLOCK_CYCLES
    ensures var c := FromCycles(cycles); FromCycles(ToSystemClockCycles(c)) == c <==> !FallsBack(cycles)
  {
    var c := FromCycles(cycles);
    var n := ToSystemClockCycles(c);
    SettingIs(cycles);
    SmallerDivisor(cycles, n);
    SettingIs(n);
    hide FromCycles, Divisor, FallsBack;
    ExactQuotient(c.clockTicks, ToClockDivisor(c.clockSelect));
  }

  lemma ASmallerDivisorAgain()
    ensures FromCycles(524281) == ClockAndTicks(DivideBy64, 8191)
    ensures FromCycles(ToSystemClockCycles(FromCycles(524281))) == ClockAndTicks(DivideBy8, 65528)
  {
  }

  // For a rate of events, the setting is the nearest that does not make them too rare.
  lemma EventsPerSecond(events: uint16)
    requires events > 0
    ensures var c := FromIntegerEventsPerSecond(events); var n := ToSystemClockCycles(c);
      !c.clockSelect.Disabled? && n * events <= F_CPU < (n + ToClockDivisor(c.clockSelect)) * events
  {
    var cycles := F_CPU / events;
    assert cycles * events <= F_CPU < (cycles + 1) * events;
    assert 0 < cycles <= F_CPU by {
      if cycles == 0 { assert 1 * events <= F_CPU; }
    }
    CyclesAreQuantised(cycles);
    hide FromCycles, ToSystemClockCycles;
    var c := FromCycles(cycles);
    var n, d := ToSystemClockCycles(c), ToClockDivisor(c.clockSelect);
    assert n * events <= cycles * events by { Monotone(n, cycles, events); }
    assert (cycles + 1) * events <= (n + d) * events by { Monotone(cycles + 1, n + d, events); }
  }

  lemma Monotone(a: nat, b: nat, m: nat)
    requires a <= b
    ensures a * m <= b * m
  {
  }

  // ----------------------------------------------------------------- Durations

  // For a duration in the timer's range no product overflows, and the setting is
  // the one for exactly so many cycles: 16 a microsecond.
  lemma MicroSeconds(us: uint32)
    requires us * 16 <= MAX_SYSTEM_CLOCK_CYCLES
    ensures FromMicroSeconds(us) == FromCycles(us * 16)
  {
    hide FromCycles;
    MicroSecondsOf(us);
  }

  // The setting that a number of cycles should have, in range or not.
  function Right(cycles: nat): ClockAndTicks {
    if cycles <= MAX_SYSTEM_CLOCK_CYCLES then FromCycles(cycles) else ClockAndTicks(Disabled, 0)
  }

  // Beyond it the product can wrap around to a number in range, and then the timer
  // is enabled, and wrong. So the setting is right exactly in the range, and for
  // those products that are out of range, or next to nothing, modulo 2^32.
  lemma MicroSecondsAreRight(us: uint32)
    ensures FromMicroSeconds(us) == Right(us * 16) <==>
      || us * 16 <= MAX_SYSTEM_CLOCK_CYCLES
      || 160 * us % 0x1_0000_0000 < 10 || 160 * us % 0x1_0000_0000 >= 10 * MAX_SYSTEM_CLOCK_CYCLES + 10
  {
    assert F_CPU / 100000 == 160;
    var cycles := Wrap(160 * us) / 10;
    if us * 16 <= MAX_SYSTEM_CLOCK_CYCLES {
      MicroSeconds(us);
    }
    CyclesAreQuantised(cycles);
    DisabledIs(cycles);
    hide FromCycles;
  }

  lemma ATimerThatShouldBeDisabled()
    ensures 26_843_608 * 16 > MAX_SYSTEM_CLOCK_CYCLES
    ensures FromMicroSeconds(26_843_608) == ClockAndTicks(DivideBy1, 998)
  {
  }

  lemma MicroSecondsOf(us: uint32)
    requires us < 26_843_546
    ensures FromMicroSeconds(us) == FromCycles(us * 16)
  {
    hide FromCycles, Wrap;
    assert F_CPU / 100000 == 160;
    WrapIs(160 * us);
    assert 160 * us / 10 == 16 * us;
  }

  lemma WrapIs(n: nat)
    ensures n <= MAX_UINT32 ==> Wrap(n) == n
    ensures MAX_UINT32 < n <= MAX_UINT32 + 1000 ==> Wrap(n) == n - 0x1_0000_0000
  {
  }

  lemma Constants()
    ensures HALF_CYCLE_NS == 31 && SHORT_PERIOD_LIMIT == 26_843_545 && F_CPU / 100000 == 160
  {
  }

  // Short durations are rounded to the nearest cycle, of 62.5 ns.
  lemma ShortDurations(ns: uint32)
    requires ns + HALF_CYCLE_NS < SHORT_PERIOD_LIMIT
    ensures var cycles := 160 * (ns + 31) / 10000;
      cycles <= MAX_UINT32 && FromNanoSeconds(ns) == FromCycles(cycles) && -62 <= 125 * cycles - 2 * ns <= 62
  {
    hide FromCycles, Wrap;
    Constants();
    WrapIs(ns + 31);
    WrapIs(160 * (ns + 31));
  }

  // Long ones are rounded to the nearest microsecond.
  lemma LongDurations(ns: uint32)
    requires SHORT_PERIOD_LIMIT <= ns + HALF_CYCLE_NS && ns + 500 <= MAX_UINT32
    ensures var cycles := (ns + 500) / 1000 * 16;
      cycles <= MAX_UINT32 && FromNanoSeconds(ns) == FromCycles(cycles) && -1000 <= 125 * cycles - 2 * ns <= 1000
  {
    hide FromCycles, Wrap, FromMicroSeconds;
    Constants();
    WrapIs(ns + 31);
    WrapIs(ns + 500);
    MicroSecondsOf((ns + 500) / 1000);
  }

  // Beyond the timer's range the timer is disabled; even where sums overflow.
  lemma DurationsOutOfRange(ns: uint32)
    requires (ns + 500) / 1000 * 16 > MAX_SYSTEM_CLOCK_CYCLES
    ensures FromNanoSeconds(ns) == ClockAndTicks(Disabled, 0)
  {
    Constants();
    if ns + 500 <= MAX_UINT32 {
      LongDurations(ns);
      CyclesAreQuantised((ns + 500) / 1000 * 16);
      DisabledIs((ns + 500) / 1000 * 16);
    } else {
      OverflowedDurations(ns);
    }
    hide FromCycles, FromNanoSeconds;
  }

  lemma DisabledIs(cycles: uint32)
    ensures FromCycles(cycles).clockSelect.Disabled? ==> FromCycles(cycles) == ClockAndTicks(Disabled, 0)
  {
  }

  lemma OverflowedDurations(ns: uint32)
    requires ns + 500 > MAX_UINT32
    ensures FromNanoSeconds(ns) == FromCycles(0) == ClockAndTicks(Disabled, 0)
  {
    hide Wrap, FromCycles, FromMicroSeconds;
    assert FromCycles(0) == ClockAndTicks(Disabled, 0) by { NoCycles(); }
    Constants();
    WrapIs(ns + 31);
    WrapIs(ns + 500);
    WrapIs(160 * Wrap(ns + 31));
    MicroSecondsOf(0);
  }

  lemma NoCycles()
    ensures FromCycles(0) == ClockAndTicks(Disabled, 0)
  {
  }

  // ------------------------------------------------------------- 16-bit arithmetic

  // Where an int has 16 bits, the limits for the larger divisors overflow to less
  // than 65536: every number of cycles that needs a divisor disables the timer.
  // So there the setting is right exactly for the numbers that need none, or
  // that are out of range anyway.
  lemma SixteenBitLimits(cycles: uint32)
    ensures cycles > MAX_CLOCK_TICKS ==> FromSystemClockCycles(cycles, false) == ClockAndTicks(Disabled, 0)
    ensures FromSystemClockCycles(cycles, false) == FromSystemClockCycles(cycles, true)
      <==> cycles <= MAX_CLOCK_TICKS || cycles > MAX_SYSTEM_CLOCK_CYCLES
  {
    if MAX_CLOCK_TICKS < cycles <= MAX_SYSTEM_CLOCK_CYCLES {
      CyclesAreQuantised(cycles);
    }
  }
}
