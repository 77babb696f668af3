/**
 The slot clock: ticks, the schedule of their start times, and the three pieces of code that have to
 agree with that schedule (floor division, successor stepping and the search for the next tick).

 Durations and instants are counted in nanoseconds. A configuration lists, phase by phase, the slot in
 which the phase starts (`None` when the fork is not scheduled); the last phase is Gloas, in which a
 slot has 16 ticks instead of 12.
*/
module Clock {
  import opened Results
  import opened Arithmetic

  const NANOS_PER_MS: nat := 1_000_000
  const NANOS_PER_SECOND: nat := 1_000_000_000
  const GLOAS: nat := 7

  datatype Config = Config(slotDurationMs: nat, forkSlots: seq<Option<nat>>)

  datatype ClockError = NextInstantOverflow | RanOutOfSlots | SlotOverflow

  /** A tick kind is its position in the slot: 0 is `Propose`, 4 `Attest`, 8 `Aggregate`, 12 `PayloadAttest`. */
  type TickKind = k: nat | k < 16

  datatype Tick = Tick(slot: nat, kind: TickKind)

  /** The length of the longest prefix of phases that have started by `slot`. */
  function StartedPhases(forks: seq<Option<nat>>, slot: nat): nat {
    if |forks| == 0 || forks[0].None? || slot < forks[0].value then 0
    else 1 + StartedPhases(forks[1..], slot)
  }

  function PhaseAt(config: Config, slot: nat): nat {
    var started := StartedPhases(config.forkSlots, slot);
    if started == 0 then 0 else started - 1
  }

  function TicksPerSlot(config: Config, slot: nat): (n: nat)
    ensures n == 12 || n == 16
  {
    if PhaseAt(config, slot) >= GLOAS then 16 else 12
  }

  function SlotNanos(config: Config): nat {
    config.slotDurationMs * NANOS_PER_MS
  }

  function TickNanos(config: Config, slot: nat): nat {
    config.slotDurationMs / TicksPerSlot(config, slot) * NANOS_PER_MS
  }

  predicate IsIntervalStart(tick: Tick) {
    tick.kind == 0 || tick.kind == 4 || tick.kind == 8 || tick.kind == 12
  }

  predicate IsIntervalEnd(tick: Tick) {
    tick.kind == 3 || tick.kind == 7 || tick.kind == 11 || tick.kind == 15
  }

  /** The ticks the stream hands to the application. */
  predicate IsEmitted(tick: Tick) {
    IsIntervalStart(tick) || IsIntervalEnd(tick)
  }

  /** The stream hands out the first and the last tick of every interval of four. */
  lemma EmittedKinds(tick: Tick)
    ensures IsIntervalStart(tick) <==> tick.kind % 4 == 0
    ensures IsIntervalEnd(tick) <==> tick.kind % 4 == 3
    ensures IsEmitted(tick) <==> tick.kind % 4 == 0 || tick.kind % 4 == 3
  {
  }

  /** The ticks of one slot that are handed out. */
  lemma EmittedInSlot(config: Config, tick: Tick)
    ensures IsTick(config, tick) && IsEmitted(tick) <==>
      tick.kind in if TicksPerSlot(config, tick.slot) == 12 then [0, 3, 4, 7, 8, 11] else [0, 3, 4, 7, 8, 11, 12, 15]
  {
  }

  /** A slot has 16 ticks exactly when all forks up to Gloas are scheduled and have happened by then. */
  lemma {:induction false} TicksFromGloas(config: Config, slot: nat)
    ensures TicksPerSlot(config, slot) == 16 <==>
      |config.forkSlots| > 7 && forall i | 0 <= i <= 7 :: config.forkSlots[i].Some? && config.forkSlots[i].value <= slot
  {
    StartedAtLeast(config.forkSlots, slot, 8);
  }

  lemma {:induction false} StartedAtLeast(forks: seq<Option<nat>>, slot: nat, n: nat)
    ensures StartedPhases(forks, slot) >= n <==>
      |forks| >= n && forall i | 0 <= i < n :: forks[i].Some? && forks[i].value <= slot
  {
    if n > 0 && |forks| > 0 {
      StartedAtLeast(forks[1..], slot, n - 1);
      assert forall i | 1 <= i < |forks| :: forks[i] == forks[1..][i - 1];
    }
  }

  function NextKind(config: Config, slot: nat, kind: TickKind): Option<TickKind> {
    if PhaseAt(config, slot) >= GLOAS then
      if kind < 15 then Some(kind + 1) else None
    else
      if kind < 11 then Some(kind + 1) else None
  }

  function Next(config: Config, tick: Tick): Result<Tick, ClockError> {
    match NextKind(config, tick.slot, tick.kind)
    case Some(kind) => Ok(Tick(tick.slot, kind))
    case None => if tick.slot < U64_MAX then Ok(Tick(tick.slot + 1, 0)) else Err(RanOutOfSlots)
  }

  // --- The schedule ---------------------------------------------------------------------------

  /** A tick that exists in its slot. */
  predicate IsTick(config: Config, tick: Tick) {
    tick.kind < TicksPerSlot(config, tick.slot)
  }

  /** The order derived for ticks: by slot, then by kind. */
  predicate Before(a: Tick, b: Tick) {
    a.slot < b.slot || (a.slot == b.slot && a.kind < b.kind)
  }

  /** The start of a tick, measured from genesis. */
  function Start(config: Config, tick: Tick): nat {
    tick.slot * SlotNanos(config) + tick.kind * TickNanos(config, tick.slot)
  }

  /** Slots divide evenly into ticks on both sides of the Gloas fork. */
  predicate EvenTicks(config: Config) {
    config.slotDurationMs >= 16 && config.slotDurationMs % 12 == 0 && config.slotDurationMs % 16 == 0
  }

  lemma TicksFillSlot(config: Config, slot: nat)
    requires EvenTicks(config)
    ensures TickNanos(config, slot) > 0 && SlotNanos(config) > 0 && config.slotDurationMs >= 16
    ensures TicksPerSlot(config, slot) * TickNanos(config, slot) == SlotNanos(config)
  {
  }

  lemma SlotStep(config: Config, slot: nat)
    ensures (slot + 1) * SlotNanos(config) == slot * SlotNanos(config) + SlotNanos(config)
  {
  }

  /** The tick containing a tick's whole duration ends no later than the start of any later tick. */
  lemma StartMonotone(config: Config, a: Tick, b: Tick)
    requires EvenTicks(config) && IsTick(config, a) && IsTick(config, b)
    requires Before(a, b)
    ensures Start(config, a) + TickNanos(config, a.slot) <= Start(config, b)
  {
    hide TickNanos, SlotNanos, TicksPerSlot, EvenTicks;
    var d := TickNanos(config, a.slot);
    if a.slot == b.slot {
      MulDistributes(a.kind, 1, d);
      MulMonotone(a.kind + 1, b.kind, d);
    } else {
      EndsWithinSlot(config, a);
      MulMonotone(a.slot + 1, b.slot, SlotNanos(config));
      MulMonotone(0, b.kind, TickNanos(config, b.slot));
    }
  }

  lemma EndsWithinSlot(config: Config, tick: Tick)
    requires EvenTicks(config) && IsTick(config, tick)
    ensures Start(config, tick) + TickNanos(config, tick.slot) <= (tick.slot + 1) * SlotNanos(config)
  {
    hide TickNanos, SlotNanos, TicksPerSlot, EvenTicks;
    var n, d := TicksPerSlot(config, tick.slot), TickNanos(config, tick.slot);
    TicksFillSlot(config, tick.slot);
    MulDistributes(tick.kind, 1, d);
    MulMonotone(tick.kind + 1, n, d);
    SlotStep(config, tick.slot);
  }

  /** `next` is the successor: it advances the start by the duration of the tick it leaves, and skips nothing. */
  lemma NextIsSuccessor(config: Config, tick: Tick)
    requires EvenTicks(config) && IsTick(config, tick) && tick.slot <= U64_MAX
    ensures Next(config, tick).Err? <==> tick == Tick(U64_MAX, TicksPerSlot(config, U64_MAX) - 1)
    ensures Next(config, tick).Ok? ==>
              var next := Next(config, tick).value;
              && IsTick(config, next) && next.slot <= U64_MAX && Before(tick, next)
              && Start(config, next) == Start(config, tick) + TickNanos(config, tick.slot)
    ensures Next(config, tick).Ok? ==>
              forall x | IsTick(config, x) && Before(x, Next(config, tick).value) :: Before(x, tick) || x == tick
  {
    hide TickNanos, SlotNanos, EvenTicks;
    var n, d := TicksPerSlot(config, tick.slot), TickNanos(config, tick.slot);
    MulDistributes(tick.kind, 1, d);
    TicksFillSlot(config, tick.slot);
    SlotStep(config, tick.slot);
  }

  // --- Floor division onto ticks --------------------------------------------------------------

  /** `Tick::from_duration`; a tick must last at least a millisecond for the divisions to be defined. */
  function FromDuration(config: Config, sinceUnixEpoch: nat, genesisSeconds: nat): Result<Tick, ClockError>
    requires config.slotDurationMs >= 16
  {
    FromElapsed(config, SaturatingSub(sinceUnixEpoch, genesisSeconds * NANOS_PER_SECOND))
  }

  function FromElapsed(config: Config, elapsed: nat): Result<Tick, ClockError>
    requires config.slotDurationMs >= 16
  {
    var slot := elapsed / SlotNanos(config);
    if slot > U64_MAX then Err(SlotOverflow)
    else
      assert TickNanos(config, slot) > 0;
      Ok(Tick(slot, elapsed / TickNanos(config, slot) % TicksPerSlot(config, slot)))
  }

  /** `Tick::delay` at the time `elapsed` after genesis. The slot must fit in 32 bits to multiply a duration. */
  function Delay(config: Config, tick: Tick, elapsed: nat): Result<nat, ClockError> {
    if tick.slot > U32_MAX then Err(SlotOverflow) else Ok(SaturatingSub(elapsed, Start(config, tick)))
  }

  /** Dividing the time since genesis by the tick duration and reducing it modulo the ticks of a slot
      is the same as dividing the time since the start of the slot. */
  lemma TickWithinSlot(elapsed: nat, slot: nat, n: nat, d: nat, length: nat)
    requires n > 0 && d > 0 && n * d == length
    requires slot * length <= elapsed < slot * length + length
    ensures elapsed / d % n == (elapsed - slot * length) / d < n
  {
    var rest := elapsed - slot * length;
    var q := rest / d;
    DivBounds(rest, d);
    if q >= n {
      MulMonotone(n, q, d);
    }
    MulAssociates(slot, n, d);
    var before := slot * n;
    MulDistributes(before, q, d);
    MulDistributes(before, q + 1, d);
    DivUnique(elapsed, d, before + q);
    ModUnique(slot, n, q);
  }

  /** The floor law: the tick found is the one the time falls into. */
  ghost predicate IsFloor(config: Config, elapsed: nat, tick: Tick) {
    IsTick(config, tick)
    && Start(config, tick) <= elapsed
    && forall x | IsTick(config, x) && Start(config, x) <= elapsed :: !Before(tick, x)
  }

  /** Arithmetic core of the floor law, for a slot made of `n` ticks of length `d`. */
  lemma TickBracketsTime(elapsed: nat, slot: nat, n: nat, d: nat, length: nat)
    requires n > 0 && d > 0 && n * d == length && length > 0 && elapsed / length == slot
    ensures elapsed / d % n < n
    ensures slot * length + elapsed / d % n * d <= elapsed < slot * length + elapsed / d % n * d + d
  {
    DivBounds(elapsed, length);
    MulDistributes(slot, 1, length);
    TickWithinSlot(elapsed, slot, n, d, length);
    var k := elapsed / d % n;
    DivBounds(elapsed - slot * length, d);
    MulDistributes(k, 1, d);
  }

  lemma FromElapsedBrackets(config: Config, elapsed: nat)
    requires EvenTicks(config) && elapsed / SlotNanos(config) <= U64_MAX
    ensures FromElapsed(config, elapsed).Ok?
    ensures var tick := FromElapsed(config, elapsed).value;
            && IsTick(config, tick) && tick.slot <= U64_MAX
            && Start(config, tick) <= elapsed < Start(config, tick) + TickNanos(config, tick.slot)
  {
    hide TickNanos, SlotNanos, TicksPerSlot, EvenTicks;
    TicksFillSlot(config, 0);
    DivBounds(elapsed, SlotNanos(config));
    var slot := elapsed / SlotNanos(config);
    var n, d := TicksPerSlot(config, slot), TickNanos(config, slot);
    TicksFillSlot(config, slot);
    TickBracketsTime(elapsed, slot, n, d, SlotNanos(config));
  }

  lemma FromElapsedIsFloor(config: Config, elapsed: nat)
    requires EvenTicks(config) && elapsed / SlotNanos(config) <= U64_MAX
    ensures FromElapsed(config, elapsed).Ok?
    ensures IsFloor(config, elapsed, FromElapsed(config, elapsed).value)
  {
    FromElapsedBrackets(config, elapsed);
    var tick := FromElapsed(config, elapsed).value;
    forall x | IsTick(config, x) && Start(config, x) <= elapsed
      ensures !Before(tick, x)
    {
      if Before(tick, x) {
        StartMonotone(config, tick, x);
      }
    }
  }

  /** `from_duration` inverts the schedule on every tick. */
  lemma FromElapsedInvertsStart(config: Config, tick: Tick)
    requires EvenTicks(config) && IsTick(config, tick) && tick.slot <= U64_MAX
    ensures FromElapsed(config, Start(config, tick)) == Ok(tick)
  {
    hide TickNanos, SlotNanos, EvenTicks, TicksPerSlot, FromElapsed;
    var elapsed, d := Start(config, tick), TickNanos(config, tick.slot);
    TicksFillSlot(config, tick.slot);
    SlotStep(config, tick.slot);
    MulMonotone(tick.kind + 1, TicksPerSlot(config, tick.slot), d);
    MulDistributes(tick.kind, 1, d);
    DivUnique(elapsed, SlotNanos(config), tick.slot);
    FromElapsedIsFloor(config, elapsed);
    var found := FromElapsed(config, elapsed).value;
    assert !Before(found, tick);
    if Before(tick, found) {
      StartMonotone(config, tick, found);
    }
  }

  /** `delay` at the tick found for a time is the remainder of that time, below one tick duration, exactly when the
      time lies in one of the first 2^32 slots. */
  lemma DelayIsRemainder(config: Config, elapsed: nat)
    requires EvenTicks(config) && elapsed / SlotNanos(config) <= U64_MAX
    ensures FromElapsed(config, elapsed).Ok?
    ensures var tick := FromElapsed(config, elapsed).value;
      && (Delay(config, tick, elapsed).Ok? <==> elapsed / SlotNanos(config) <= U32_MAX)
      && (Delay(config, tick, elapsed).Ok? ==>
            && Start(config, tick) + Delay(config, tick, elapsed).value == elapsed
            && Delay(config, tick, elapsed).value < TickNanos(config, tick.slot))
  {
    FromElapsedBrackets(config, elapsed);
  }

  /** `delay` of any tick, however old: the time since its start, or zero before it, unless its slot exceeds 32 bits. */
  lemma DelaySinceStart(config: Config, tick: Tick, elapsed: nat)
    ensures var start := tick.slot * (config.slotDurationMs * 1_000_000)
      + tick.kind * (config.slotDurationMs / TicksPerSlot(config, tick.slot) * 1_000_000);
      Delay(config, tick, elapsed) ==
      if tick.slot >= 0x1_0000_0000 then Err(SlotOverflow) else Ok(if start <= elapsed then elapsed - start else 0)
  {
    assert Start(config, tick) == tick.slot * SlotNanos(config) + tick.kind * TickNanos(config, tick.slot);
  }

  /** At the start of slot 2^32 the tick is found, and its delay is an error instead of zero. */
  lemma DelayFailsAtSlot(config: Config)
    requires EvenTicks(config)
    ensures var elapsed := (U32_MAX + 1) * SlotNanos(config);
      && FromElapsed(config, elapsed) == Ok(Tick(U32_MAX + 1, 0)) && Start(config, Tick(U32_MAX + 1, 0)) == elapsed
      && Delay(config, Tick(U32_MAX + 1, 0), elapsed) == Err(SlotOverflow)
  {
    hide TickNanos, SlotNanos, TicksPerSlot, FromElapsed, EvenTicks;
    var tick := Tick(U32_MAX + 1, 0);
    PositiveTicks(config, tick.slot);
    FromElapsedInvertsStart(config, tick);
  }

  lemma PositiveTicks(config: Config, slot: nat)
    ensures TicksPerSlot(config, slot) > 0
  {
  }

  /** `from_duration` from the genesis time on, and before it, when it is the first tick of slot 0. */
  lemma FromDurationIsFloor(config: Config, sinceUnixEpoch: nat, genesisSeconds: nat)
    requires EvenTicks(config)
    requires SaturatingSub(sinceUnixEpoch, genesisSeconds * NANOS_PER_SECOND) / SlotNanos(config) <= U64_MAX
    ensures var r := FromDuration(config, sinceUnixEpoch, genesisSeconds);
      if sinceUnixEpoch <= genesisSeconds * NANOS_PER_SECOND then r == Ok(Tick(0, 0))
      else r.Ok? && IsFloor(config, sinceUnixEpoch - genesisSeconds * NANOS_PER_SECOND, r.value)
  {
    hide TickNanos, SlotNanos, EvenTicks, TicksPerSlot, FromElapsed, IsFloor;
    if sinceUnixEpoch <= genesisSeconds * NANOS_PER_SECOND {
      FirstTickStartsAtGenesis(config);
      FromElapsedInvertsStart(config, Tick(0, 0));
    } else {
      FromElapsedIsFloor(config, sinceUnixEpoch - genesisSeconds * NANOS_PER_SECOND);
    }
  }

  lemma FirstTickStartsAtGenesis(config: Config)
    ensures IsTick(config, Tick(0, 0)) && Start(config, Tick(0, 0)) == 0
  {
  }

  /** The floor law holds throughout a slot exactly when the slot divides evenly into its ticks. */
  lemma FloorLawNeedsEvenTicks(config: Config, slot: nat)
    requires config.slotDurationMs >= 16 && slot <= U64_MAX
    ensures (forall elapsed: nat | elapsed / SlotNanos(config) == slot :: InFoundTick(config, elapsed))
            <==> config.slotDurationMs % TicksPerSlot(config, slot) == 0
  {
    var n, d := TicksPerSlot(config, slot), TickNanos(config, slot);
    if config.slotDurationMs % n == 0 {
      assert config.slotDurationMs == n * (config.slotDurationMs / n);
      assert n * d == SlotNanos(config);
      forall elapsed: nat | elapsed / SlotNanos(config) == slot
        ensures InFoundTick(config, elapsed)
      {
        TickBracketsTime(elapsed, slot, n, d, SlotNanos(config));
      }
    } else {
      UnevenTicksBreakFloor(config, slot);
    }
  }

  /** The time lies in the tick found for it, judged by that tick's own start and duration. */
  predicate InFoundTick(config: Config, elapsed: nat)
    requires config.slotDurationMs >= 16
  {
    var r := FromElapsed(config, elapsed);
    r.Ok? && Start(config, r.value) <= elapsed < Start(config, r.value) + TickNanos(config, r.value.slot)
  }

  /** With slots of 100 ms a tick lasts 8 ms, and 96 ms after genesis, past all twelve ticks, the first one is found. */
  lemma FloorLawFailsAt100Ms()
    ensures var config := Config(100, []);
      FromElapsed(config, 96_000_000) == Ok(Tick(0, 0)) && !InFoundTick(config, 96_000_000)
  {
    hide TickNanos, SlotNanos, TicksPerSlot;
    TicksOf100Ms();
  }

  lemma TicksOf100Ms()
    ensures var config := Config(100, []);
      TicksPerSlot(config, 0) == 12 && TickNanos(config, 0) == 8_000_000 && SlotNanos(config) == 100_000_000
  {
  }

  /** A whole cycle of ticks later, the same kind is found. */
  lemma SameKindAfterCycle(time: nat, n: nat, d: nat)
    requires n > 0 && d > 0
    ensures (time + n * d) / d % n == time / d % n
  {
    DivBounds(time, d);
    var q := time / d;
    MulDistributes(q, n, d);
    MulDistributes(q + 1, n, d);
    DivUnique(time + n * d, d, q + n);
    AddingModulus(q, n);
  }

  lemma UnevenTicksFallShort(config: Config, slot: nat)
    requires config.slotDurationMs >= 16 && config.slotDurationMs % TicksPerSlot(config, slot) != 0
    ensures 0 < TickNanos(config, slot) <= TicksPerSlot(config, slot) * TickNanos(config, slot) < SlotNanos(config)
  {
    hide TicksPerSlot;
    var n := TicksPerSlot(config, slot);
    assert config.slotDurationMs == n * (config.slotDurationMs / n) + config.slotDurationMs % n;
  }

  /** The kind found at a time in the given slot. */
  lemma KindFound(config: Config, slot: nat, rest: nat)
    requires config.slotDurationMs >= 16 && slot <= U64_MAX && rest < SlotNanos(config)
    ensures TickNanos(config, slot) > 0
    ensures var elapsed := slot * SlotNanos(config) + rest;
      && elapsed / SlotNanos(config) == slot
      && FromElapsed(config, elapsed) == Ok(Tick(slot, elapsed / TickNanos(config, slot) % TicksPerSlot(config, slot)))
  {
    assert TickNanos(config, slot) > 0;
    hide TickNanos, SlotNanos, TicksPerSlot;
    SlotStep(config, slot);
    DivUnique(slot * SlotNanos(config) + rest, SlotNanos(config), slot);
  }

  /** At the start of an uneven slot and a whole cycle of ticks later the same tick is found; it cannot hold both. */
  lemma UnevenTicksBreakFloor(config: Config, slot: nat)
    requires config.slotDurationMs >= 16 && slot <= U64_MAX
    requires config.slotDurationMs % TicksPerSlot(config, slot) != 0
    ensures exists elapsed: nat :: elapsed / SlotNanos(config) == slot && !InFoundTick(config, elapsed)
  {
    hide TickNanos, SlotNanos, TicksPerSlot, FromElapsed;
    var n, d := TicksPerSlot(config, slot), TickNanos(config, slot);
    UnevenTicksFallShort(config, slot);
    var first := slot * SlotNanos(config);
    var late := first + n * d;
    KindFound(config, slot, 0);
    KindFound(config, slot, n * d);
    SameKindAfterCycle(first, n, d);
    assert !InFoundTick(config, first) || !InFoundTick(config, late);
  }
}
