/** Tickless idle: which idle state is entered, how long the wake-up timer is set for,
  * and the ticks given back to the kernel. */
module Tickless {
  import opened Arithmetic
  import opened WordBits
  import opened Wrappers

  const US: nat := 1000000
  const U64: nat := 0x1_0000_0000_0000_0000
  const RHINO_WAIT_FOREVER: nat := U64 - 1
  const TIME_100_YEARS_IN_US: nat := 0xB342EB7C38000

  // ----- the ticks of one stop -----

  /** The whole ticks in `passed` microseconds; the 64-bit product wraps around. */
  function Whole(hz: nat, passed: nat): nat {
    (passed * hz) % U64 / US
  }

  /** The ticks of `passed` microseconds and the microseconds kept for later. */
  function Stop(hz: nat, remain: nat, passed: nat): (nat, nat)
    requires 0 < hz <= US
  {
    var us_per_tick := US / hz;
    var n := Whole(hz, passed);
    var r := remain + passed % us_per_tick;
    if r >= us_per_tick then (n + 1, r - us_per_tick) else (n, r)
  }

  /** A failed stop gives no ticks and keeps what was kept. */
  function StopOr(hz: nat, remain: nat, stop: Option<nat>): (nat, nat)
    requires 0 < hz <= US
  {
    if stop.None? then (0, remain) else Stop(hz, remain, stop.value)
  }

  /** The ticks given over a run of stops, and what is kept at its end. */
  function Run(hz: nat, stops: seq<Option<nat>>): (nat, nat)
    requires 0 < hz <= US
  {
    if stops == [] then (0, 0)
    else
      var (ticks, remain) := Run(hz, stops[..|stops|-1]);
      var (n, r) := StopOr(hz, remain, stops[|stops|-1]);
      (ticks + n, r)
  }

  function Elapsed(stops: seq<Option<nat>>): nat {
    if stops == [] then 0
    else
      var last := stops[|stops|-1];
      Elapsed(stops[..|stops|-1]) + if last.None? then 0 else last.value
  }

  /** No product of a stop leaves 64 bits. */
  predicate Fits(hz: nat, stops: seq<Option<nat>>) {
    forall i :: 0 <= i < |stops| && stops[i].Some? ==> stops[i].value * hz < U64
  }

  /** With a whole number of microseconds to a tick, the product over 10^6 is the
    * quotient by that number. */
  lemma TicksOf(hz: nat, passed: nat)
    requires 0 < hz <= US && US % hz == 0
    ensures US / hz > 0 && passed * hz / US == passed / (US / hz)
    ensures passed * hz < U64 ==> Whole(hz, passed) == passed / (US / hz)
  {
    var u := US / hz;
    assert u * hz == US;
    assert u > 0;
    var q, r := passed / u, passed % u;
    assert passed == q * u + r;
    Product(q, u, r, hz);
    MulMono(r + 1, u, hz);
    DivMod(passed * hz, US, q, r * hz);
  }

  lemma Product(q: nat, u: nat, r: nat, hz: nat)
    ensures (q * u + r) * hz == q * (u * hz) + r * hz
  {
  }

  /** The ticks given and the microseconds kept are the time that passed. */
  predicate Exact(u: nat, given: (nat, nat), elapsed: nat) {
    given.1 < u && given.0 * u + given.1 == elapsed
  }

  lemma StopOrIsExact(hz: nat, given: (nat, nat), elapsed: nat, stop: Option<nat>)
    requires 0 < hz <= US && US % hz == 0 && Exact(US / hz, given, elapsed)
    requires stop.Some? ==> stop.value * hz < U64
    ensures var (n, r) := StopOr(hz, given.1, stop);
      Exact(US / hz, (given.0 + n, r), elapsed + if stop.None? then 0 else stop.value)
  {
    hide Whole;
    if stop.Some? {
      TicksOf(hz, stop.value);
      OneStopIsExact(US / hz, given, elapsed, stop.value);
    }
  }

  lemma OneStopIsExact(u: nat, given: (nat, nat), elapsed: nat, passed: nat)
    requires u > 0 && Exact(u, given, elapsed)
    ensures var r, n := given.1 + passed % u, passed / u;
      Exact(u, (given.0 + if r >= u then n + 1 else n, if r >= u then r - u else r), elapsed + passed)
  {
    StopIsExact(u, given.0, given.1, passed);
    assert passed % u < u;
  }

  lemma {:induction false} RunIsExact(hz: nat, stops: seq<Option<nat>>)
    requires 0 < hz <= US && US % hz == 0 && Fits(hz, stops)
    ensures Exact(US / hz, Run(hz, stops), Elapsed(stops))
    decreases |stops|
  {
    TicksOf(hz, 0);
    if stops != [] {
      hide Exact, StopOr;
      RunIsExact(hz, stops[..|stops|-1]);
      StopOrIsExact(hz, Run(hz, stops[..|stops|-1]), Elapsed(stops[..|stops|-1]), stops[|stops|-1]);
    }
  }

  /** When the tick rate divides 10^6, the ticks given over any run are exactly the whole
    * ticks in the time that passed in it. */
  lemma TicksAreExact(hz: nat, stops: seq<Option<nat>>)
    requires 0 < hz <= 1000000 && 1000000 % hz == 0 && Fits(hz, stops)
    ensures 1000000 / hz > 0 && Run(hz, stops).0 == Elapsed(stops) / (1000000 / hz)
  {
    TicksOf(hz, 0);
    RunIsExact(hz, stops);
    DivMod(Elapsed(stops), US / hz, Run(hz, stops).0, Run(hz, stops).1);
  }

  /** One stop of the microseconds of one tick, rounded down. */
  lemma OneTick(hz: nat)
    requires 0 < hz <= US
    ensures var u := US / hz; var one := [Some(u)];
      && u > 0 && Fits(hz, one) && Elapsed(one) == u && u / u == 1
      && Run(hz, one).0 == if US % hz == 0 then 1 else 0
  {
    var u := US / hz;
    assert US == u * hz + US % hz;
    assert u * hz > 0;
    var one: seq<Option<nat>> := [Some(u)];
    assert one[..0] == [] && Run(hz, []) == (0, 0) && Elapsed([]) == 0;
    DivMod(u, u, 1, 0);
    DivMod(u * hz, US, if US % hz == 0 then 1 else 0, if US % hz == 0 then 0 else u * hz);
  }

  /** Other tick rates drift: the accounting is exact for all runs if and only if the
    * rate divides 10^6. */
  lemma ExactExactlyForDivisors(hz: nat)
    requires 0 < hz <= 1000000
    ensures 1000000 / hz > 0
    ensures 1000000 % hz == 0 <==>
      forall stops :: Fits(hz, stops) ==> Run(hz, stops).0 == Elapsed(stops) / (1000000 / hz)
  {
    OneTick(hz);
    if US % hz == 0 {
      forall stops | Fits(hz, stops)
        ensures Run(hz, stops).0 == Elapsed(stops) / (US / hz)
      {
        TicksAreExact(hz, stops);
      }
    } else {
      var one: seq<Option<nat>> := [Some(US / hz)];
      assert Fits(hz, one) && Run(hz, one).0 == 0;
    }
  }

  /** A stop whose product wraps around gives too few ticks: it is exact if and only if
    * the product fits. */
  lemma ExactExactlyWhenFits(hz: nat, passed: nat)
    requires 0 < hz <= 1000000 && 1000000 % hz == 0
    ensures 1000000 / hz > 0
    ensures Stop(hz, 0, passed).0 == passed / (1000000 / hz) <==> passed * hz < 0x1_0000_0000_0000_0000
  {
    TicksOf(hz, passed);
    var p := passed * hz;
    assert passed % (US / hz) < US / hz;
    if p >= U64 {
      assert p % U64 + U64 <= p;
      assert (p % U64) / US < p / US;
    }
  }

  lemma StopIsExact(u: nat, ticks: nat, remain: nat, passed: nat)
    requires u > 0 && remain < u
    ensures var r := remain + passed % u;
      (ticks + passed / u + if r >= u then 1 else 0) * u + (if r >= u then r - u else r) == ticks * u + remain + passed
  {
    var q := passed / u;
    assert passed == q * u + passed % u;
    assert (ticks + q + 1) * u == ticks * u + q * u + u;
    assert (ticks + q) * u == ticks * u + q * u;
  }

  // ----- the idle state and the sleep -----

  /** A wake-up timer; some cannot tell how long they can run. */
  datatype OneShotTimer = OneShotTimer(seconds_max: Option<nat>)

  /** The microseconds until the next kernel event, one tick early; the product wraps
    * around 64 bits. */
  function IdleTime(hz: nat, n_ticks: nat): nat
    requires hz > 0
  {
    if n_ticks == RHINO_WAIT_FOREVER then TIME_100_YEARS_IN_US
    else PerTick((US * if n_ticks > 1 then n_ticks - 1 else n_ticks) % U64, hz)
  }

  function PerTick(us: nat, hz: nat): nat
    requires hz > 0
  {
    us / hz
  }

  lemma IdleTimeBounds(hz: nat, n_ticks: nat)
    requires hz > 0 && n_ticks < U64
    ensures IdleTime(hz, n_ticks) < U64
    ensures var us := 1000000 * if n_ticks > 1 then n_ticks - 1 else n_ticks;
      if n_ticks == 0xffff_ffff_ffff_ffff then IdleTime(hz, n_ticks) == 100 * 365 * 24 * 3600 * 1000000
      else
        && IdleTime(hz, n_ticks) * hz <= us
        && (us < 0x1_0000_0000_0000_0000 ==> us < (IdleTime(hz, n_ticks) + 1) * hz)
  {
    var us := US * if n_ticks > 1 then n_ticks - 1 else n_ticks;
    QuotientBounds(us % U64, hz);
  }

  lemma QuotientBounds(w: nat, hz: nat)
    requires hz > 0
    ensures w / hz * hz <= w < (w / hz + 1) * hz && w / hz <= w
  {
    var t := w / hz;
    assert w == t * hz + w % hz;
    assert (t + 1) * hz == t * hz + hz;
    MulMono(1, hz, t);
  }

  function MaxUs(timer: Option<OneShotTimer>): nat {
    if timer.None? || timer.value.seconds_max.None? then 0 else US * timer.value.seconds_max.value
  }

  /** What the timer is set for, in unsigned 64-bit arithmetic. */
  function Programmed(idle: nat, max: nat, latency: nat): nat {
    ((if idle > max then max else idle) - latency) % U64
  }

  /** With a latency below the idle time, the sleep and the latency fit in the idle time
    * if and only if the timer can run at least for the latency. */
  lemma SleepFitsExactly(idle: nat, max: nat, latency: nat)
    requires latency < idle < U64
    ensures Programmed(idle, max, latency) + latency <= idle <==> latency <= max
  {
    if max < latency {
      assert (max - latency) % U64 == max - latency + U64;
    }
  }

  /** State `c` is enabled, is not C0, and is left soon enough. */
  predicate Suits(cfg: bv32, latency: seq<nat>, idle: nat, c: nat) {
    0 < c < 32 && c < |latency| && Bit(cfg, c) && latency[c] < idle
  }

  /** `c` is the deepest state that suits, or C0 when none does. */
  ghost predicate Deepest(cfg: bv32, latency: seq<nat>, idle: nat, c: nat) {
    (c == 0 || Suits(cfg, latency, idle, c)) && forall d: nat :: Suits(cfg, latency, idle, d) ==> d <= c
  }

  /** The state to try next: the highest one left. */
  method HighestState(cfg: bv32) returns (c: nat)
    ensures if cfg == 0 then c == 0 else IsHighest(cfg, c)
  {
    hide Bit;
    if cfg == 0 { return 0; }
    var nr := FindFirstBit(cfg);
    c := 31 - nr;
  }

  /** The loop of `tickless_enter_check`: from the highest enabled state downwards. */
  method FindState(cstate_cfg: bv32, latency: seq<nat>, sleep_time_us: nat, p_cstate: nat)
    returns (cstate: nat, cpu_c_state: nat)
    requires |latency| == 32
    ensures cpu_c_state < 32 && Deepest(cstate_cfg, latency, sleep_time_us, cpu_c_state)
    ensures cstate == if cpu_c_state > 0 then cpu_c_state else p_cstate
  {
    hide Bit;
    cstate := p_cstate;
    var cfg := cstate_cfg;
    cpu_c_state := HighestState(cfg);
    while cpu_c_state > 0
      invariant cpu_c_state < 32 && cstate == p_cstate
      invariant if cfg == 0 then cpu_c_state == 0 else IsHighest(cfg, cpu_c_state)
      invariant forall d: nat :: d < 32 ==> (Bit(cfg, d) ==> Bit(cstate_cfg, d))
      invariant forall d: nat :: Suits(cstate_cfg, latency, sleep_time_us, d) ==> Bit(cfg, d)
      decreases cpu_c_state
    {
      if latency[cpu_c_state] < sleep_time_us {
        cstate := cpu_c_state;
        break;
      }
      cfg, cpu_c_state := NextState(cfg, cpu_c_state);
    }
    NothingLeft(cstate_cfg, cfg, latency, sleep_time_us, cpu_c_state);
  }

  /** Clears the state tried from the set, and takes the highest one left. */
  method NextState(cfg: bv32, tried: nat) returns (left: bv32, c: nat)
    requires IsHighest(cfg, tried) && 0 < tried
    ensures forall d: nat :: d < 32 ==> (Bit(left, d) <==> d != tried && Bit(cfg, d))
    ensures c < tried && if left == 0 then c == 0 else IsHighest(left, c)
  {
    hide Bit;
    left := Cleared(cfg, Mask(tried));
    forall d: nat | d < 32
      ensures Bit(left, d) <==> d != tried && Bit(cfg, d)
    {
      ClearBit(cfg, tried, d);
    }
    c := HighestState(left);
  }

  /** `tickless_enter_check`. */
  method EnterCheck(hz: nat, n_ticks: nat, cstate_cfg: bv32, latency: seq<nat>, timers: seq<Option<OneShotTimer>>,
                    p_cstate: nat) returns (sleeptime: nat, cstate: nat, cpu_c_state: nat)
    requires hz > 0 && |latency| == 32 == |timers|
    ensures cpu_c_state < 32 && Deepest(cstate_cfg, latency, IdleTime(hz, n_ticks), cpu_c_state)
    ensures forall d: nat :: 0 < d < 32 && Bit(cstate_cfg, d) && latency[d] < IdleTime(hz, n_ticks) ==> d <= cpu_c_state
    ensures cpu_c_state > 0 ==> Bit(cstate_cfg, cpu_c_state) && latency[cpu_c_state] < IdleTime(hz, n_ticks)
    ensures cstate == if cpu_c_state > 0 then cpu_c_state else p_cstate
    ensures sleeptime == Programmed(IdleTime(hz, n_ticks), MaxUs(timers[cpu_c_state]), latency[cpu_c_state])
    ensures var idle, timer := IdleTime(hz, n_ticks), timers[cpu_c_state];
      var max := if timer.Some? && timer.value.seconds_max.Some? then 1000000 * timer.value.seconds_max.value else 0;
      sleeptime == ((if idle < max then idle else max) - latency[cpu_c_state]) % 0x1_0000_0000_0000_0000
  {
    hide Deepest, Bit;
    var sleep_time_us: nat;
    if n_ticks == RHINO_WAIT_FOREVER {
      sleep_time_us := TIME_100_YEARS_IN_US;
    } else {
      var n := if n_ticks > 1 then n_ticks - 1 else n_ticks;
      sleep_time_us := (US * n) % U64 / hz;
    }
    cstate, cpu_c_state := FindState(cstate_cfg, latency, sleep_time_us, p_cstate);
    var one_shot_max_us_support := 0;
    if timers[cpu_c_state].Some? {
      if timers[cpu_c_state].value.seconds_max.Some? {
        one_shot_max_us_support := 1000000 * timers[cpu_c_state].value.seconds_max.value;
      }
    }
    if sleep_time_us > one_shot_max_us_support {
      sleep_time_us := one_shot_max_us_support;
    }
    sleeptime := (sleep_time_us - latency[cpu_c_state]) % U64;
    DeepestIs(cstate_cfg, latency, IdleTime(hz, n_ticks), cpu_c_state);
  }

  lemma DeepestIs(cfg: bv32, latency: seq<nat>, idle: nat, c: nat)
    requires |latency| == 32 && c < 32 && Deepest(cfg, latency, idle, c)
    ensures forall d: nat :: 0 < d < 32 && Bit(cfg, d) && latency[d] < idle ==> d <= c
    ensures c > 0 ==> Bit(cfg, c) && latency[c] < idle
  {
    hide Bit;
    forall d: nat | 0 < d < 32 && Bit(cfg, d) && latency[d] < idle ensures d <= c {
      assert Suits(cfg, latency, idle, d);
    }
  }

  lemma NothingLeft(all: bv32, cfg: bv32, latency: seq<nat>, idle: nat, c: nat)
    requires |latency| == 32 && c < 32 && if cfg == 0 then c == 0 else IsHighest(cfg, c)
    requires forall d: nat :: d < 32 ==> (Bit(cfg, d) ==> Bit(all, d))
    requires forall d: nat :: Suits(all, latency, idle, d) ==> Bit(cfg, d)
    requires c > 0 ==> latency[c] < idle
    ensures Deepest(all, latency, idle, c)
  {
    NoBits();
    hide Bit;
  }

  // ----- entering and leaving -----

  const CPU_CSTATE_C1: nat := 1

  class Idle {
    const hz: nat
    const latency: seq<nat>
    const timers: seq<Option<OneShotTimer>>
    const config: bv32
    var us_remain: nat
    var is_current_tickless: bool
    var c_state_entered: nat
    var systick_running: bool
    ghost var announced: nat                 // the ticks given to the kernel so far
    ghost var stops: seq<Option<nat>>        // what stopping the timer told, each time

    /** The ticks announced and the microseconds kept are those of the run of stops; the
      * tick interrupt is off just while the timer stands in for it. */
    ghost predicate Valid()
      reads this
    {
      && 0 < hz <= US && |latency| == 32 == |timers|
      && Run(hz, stops) == (announced, us_remain)
      && systick_running == !is_current_tickless
    }

    constructor (hz: nat, latency: seq<nat>, timers: seq<Option<OneShotTimer>>, config: bv32)
      requires 0 < hz <= US && |latency| == 32 == |timers|
      ensures Valid() && stops == [] && !is_current_tickless
      ensures this.hz == hz && this.latency == latency && this.timers == timers && this.config == config
    {
      this.hz, this.latency, this.timers, this.config := hz, latency, timers, config;
      us_remain, is_current_tickless, c_state_entered, systick_running := 0, false, 0, true;
      announced, stops := 0, [];
    }

    /** `tickless_one_shot_stop`, and the announcement of its ticks. */
    method OneShotStop(passed: Option<nat>) returns (n_ticks: nat)
      requires 0 < hz <= US && Run(hz, stops) == (announced, us_remain)
      modifies this`us_remain, this`announced, this`stops
      ensures stops == old(stops) + [passed] && Run(hz, stops) == (announced, us_remain)
      ensures announced == old(announced) + n_ticks
    {
      assert (stops + [passed])[..|stops|] == stops;
      var us_per_tick := US / hz;
      PositiveTick(hz);
      n_ticks := 0;
      if passed.Some? {
        n_ticks := (passed.value * hz) % U64 / US;
        us_remain := us_remain + passed.value % us_per_tick;
        if us_remain >= us_per_tick {
          n_ticks := n_ticks + 1;
          us_remain := us_remain - us_per_tick;
        }
      }
      stops := stops + [passed];
      announced := announced + n_ticks;
    }

    /** `tickless_enter`: `started` and `passed` are what starting and stopping the timer
      * will tell.  The timer is started when there is time to sleep, and then stopped. */
    method Enter(n_ticks: nat, started: bool, passed: Option<nat>) returns (ghost chosen: nat)
      requires Valid()
      modifies this
      ensures Valid() && !is_current_tickless
      ensures chosen < 32 && Deepest(config, latency, IdleTime(hz, n_ticks), chosen)
      ensures c_state_entered == if chosen > 0 then chosen else 1
      ensures stops ==
        if old(is_current_tickless)
           || (started && Programmed(IdleTime(hz, n_ticks), MaxUs(timers[chosen]), latency[chosen]) > 0)
        then old(stops) + [passed] else old(stops)
    {
      hide Deepest, Programmed, IdleTime, Run;
      var sleep_time, cstate_to_enter, cpu_c_state;
      sleep_time, cstate_to_enter, cpu_c_state := EnterCheck(hz, n_ticks, config, latency, timers, CPU_CSTATE_C1);
      chosen := cpu_c_state;
      if sleep_time > 0 && !is_current_tickless {
        if started { is_current_tickless := true; }
      }
      c_state_entered := cstate_to_enter;
      if is_current_tickless {
        systick_running := false;
        var n := OneShotStop(passed);
        is_current_tickless := false;
        systick_running := true;
      }
    }

    /** `tickless_exit`. */
    method Exit(passed: Option<nat>)
      requires Valid()
      modifies this
      ensures Valid() && !is_current_tickless
      ensures stops == if old(is_current_tickless) then old(stops) + [passed] else old(stops)
    {
      if !is_current_tickless { return; }
      var n := OneShotStop(passed);
      is_current_tickless := false;
      systick_running := true;
    }
  }

  lemma PositiveTick(hz: nat)
    requires 0 < hz <= US
    ensures US / hz > 0
  {
    OneTick(hz);
  }
}
