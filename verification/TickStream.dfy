/**
 The search for the next tick (`next_tick_with_instant`) and the tick stream (`ticks`).

 The search adds the duration of the tick it moves to, whereas the schedule grows by the duration of
 the tick it leaves. The two agree except in the last slot before the number of ticks per slot changes,
 so the search is exact if and only if it does not step over that boundary.
*/
module TickStream {
  import opened Results
  import opened Arithmetic
  import opened Clock

  predicate IsCandidate(config: Config, onlyIntervals: bool, tick: Tick) {
    IsTick(config, tick) && (onlyIntervals ==> IsIntervalStart(tick))
  }

  /** `tick` is the least candidate that does not start before the time `elapsed` after genesis. */
  ghost predicate IsNextTick(config: Config, elapsed: int, onlyIntervals: bool, tick: Tick) {
    && IsCandidate(config, onlyIntervals, tick)
    && elapsed <= Start(config, tick)
    && forall x | IsCandidate(config, onlyIntervals, x) && elapsed <= Start(config, x) :: !Before(x, tick)
  }

  /** The search takes the slot from whole seconds. */
  predicate WholeSeconds(config: Config) {
    config.slotDurationMs % 1000 == 0
  }

  /** Where the last candidate of a slot starts, measured from the start of the slot. */
  function LastCandidate(config: Config, slot: nat, onlyIntervals: bool): nat {
    (TicksPerSlot(config, slot) - if onlyIntervals then 4 else 1) * TickNanos(config, slot)
  }

  /** The time lies past the last candidate of a slot after which the number of ticks per slot changes. */
  predicate StepsOverFork(config: Config, elapsed: int, onlyIntervals: bool)
    requires EvenTicks(config)
  {
    elapsed > 0
    && var slot := elapsed / SlotNanos(config);
       DivBounds(elapsed, SlotNanos(config));
       TicksPerSlot(config, slot) != TicksPerSlot(config, slot + 1)
       && elapsed - slot * SlotNanos(config) > LastCandidate(config, slot, onlyIntervals)
  }

  /** By how much the search falls behind the schedule when it steps from `slot` into the next slot. */
  function Lag(config: Config, slot: nat): int {
    TickNanos(config, slot) - TickNanos(config, slot + 1)
  }

  lemma {:induction false} PhasesOnlyStart(forks: seq<Option<nat>>, slot: nat)
    ensures StartedPhases(forks, slot) <= StartedPhases(forks, slot + 1)
  {
    if |forks| > 0 && forks[0].Some? && forks[0].value <= slot {
      PhasesOnlyStart(forks[1..], slot);
    }
  }

  /** The tick count only ever grows, and the lag is positive exactly when it does. */
  lemma LagBounds(config: Config, slot: nat)
    requires EvenTicks(config)
    ensures 0 <= Lag(config, slot) < TickNanos(config, slot + 1)
    ensures Lag(config, slot) == 0 <==> TicksPerSlot(config, slot) == TicksPerSlot(config, slot + 1)
  {
    PhasesOnlyStart(config.forkSlots, slot);
    var ms := config.slotDurationMs;
    assert ms == 12 * (ms / 12) == 16 * (ms / 16);
  }

  /** The searched distance `toNext` of a tick from the start of `slot`, in terms of the schedule. */
  ghost predicate Located(config: Config, slot: nat, tick: Tick, toNext: int) {
    && IsTick(config, tick) && tick.slot <= U64_MAX
    && slot <= tick.slot <= slot + 1
    && toNext == Start(config, tick) - slot * SlotNanos(config)
                 - if tick.slot == slot then 0 else Lag(config, slot)
  }

  lemma LocatedStep(config: Config, slot: nat, tick: Tick, toNext: int)
    requires EvenTicks(config) && Located(config, slot, tick, toNext)
    requires Next(config, tick).Ok? && Next(config, tick).value.slot <= slot + 1
    ensures var next := Next(config, tick).value;
            Located(config, slot, next, toNext + TickNanos(config, next.slot))
  {
    hide TickNanos, SlotNanos, EvenTicks, Start;
    NextIsSuccessor(config, tick);
  }

  /** No candidate before `tick` starts at or after `elapsed`. */
  ghost predicate AllEarlier(config: Config, elapsed: int, onlyIntervals: bool, tick: Tick) {
    forall x | IsCandidate(config, onlyIntervals, x) && Before(x, tick) :: Start(config, x) < elapsed
  }

  lemma AllEarlierInitially(config: Config, elapsed: nat, slot: nat)
    requires EvenTicks(config) && slot * SlotNanos(config) <= elapsed
    ensures AllEarlier(config, elapsed, false, Tick(slot, 0))
  {
    hide TickNanos, SlotNanos, EvenTicks;
    forall x | IsCandidate(config, false, x) && Before(x, Tick(slot, 0))
      ensures Start(config, x) < elapsed
    {
      StartMonotone(config, x, Tick(slot, 0));
      TicksFillSlot(config, x.slot);
    }
  }

  lemma AllEarlierStep(config: Config, elapsed: int, onlyIntervals: bool, tick: Tick)
    requires EvenTicks(config) && IsTick(config, tick) && tick.slot <= U64_MAX && Next(config, tick).Ok?
    requires AllEarlier(config, elapsed, onlyIntervals, tick)
    requires IsCandidate(config, onlyIntervals, tick) ==> Start(config, tick) < elapsed
    ensures AllEarlier(config, elapsed, onlyIntervals, Next(config, tick).value)
  {
  }

  /** Dividing whole seconds by the whole seconds of a slot finds the slot. */
  lemma SlotFromSeconds(config: Config, elapsed: nat)
    requires EvenTicks(config) && WholeSeconds(config)
    ensures config.slotDurationMs / 1000 > 0
    ensures 0 <= elapsed / NANOS_PER_SECOND / (config.slotDurationMs / 1000) == elapsed / SlotNanos(config)
    ensures config.slotDurationMs / 1000 * NANOS_PER_SECOND == SlotNanos(config)
  {
    var perSlot := config.slotDurationMs / 1000;
    var length := SlotNanos(config);
    assert perSlot * NANOS_PER_SECOND == length && perSlot > 0;
    hide SlotNanos, EvenTicks, WholeSeconds;
    NestedDivision(elapsed, NANOS_PER_SECOND, perSlot, length);
  }

  lemma NestedDivision(x: nat, a: nat, b: nat, ab: nat)
    requires a > 0 && b > 0 && ab == b * a && ab > 0
    ensures 0 <= x / a / b == x / ab
  {
    DivBounds(x, a);
    var y := x / a;
    DivBounds(y, b);
    var z := y / b;
    MulAssociates(z, b, a);
    MulAssociates(z + 1, b, a);
    MulMonotone(z * b, y, a);
    MulMonotone(y + 1, (z + 1) * b, a);
    DivUnique(x, ab, z);
  }

  /** By how much the search is early: by the lag if it steps over the fork, and otherwise not at all. */
  function EarlyBy(config: Config, elapsed: int, onlyIntervals: bool): (r: nat)
    requires EvenTicks(config)
    ensures r > 0 <==> StepsOverFork(config, elapsed, onlyIntervals)
  {
    if StepsOverFork(config, elapsed, onlyIntervals) then
      DivBounds(elapsed, SlotNanos(config));
      LagBounds(config, elapsed / SlotNanos(config));
      Lag(config, elapsed / SlotNanos(config))
    else 0
  }

  /** When the search is early, in plain terms: for a time `offset` into a slot it is early by the difference of the
      tick durations of this slot and the next if all candidates of the slot have started, and otherwise not. The
      durations differ only before the fork. */
  lemma EarlyExactlyWhen(config: Config, slot: nat, offset: nat, onlyIntervals: bool)
    requires EvenTicks(config) && offset < config.slotDurationMs * 1_000_000
    ensures EarlyBy(config, slot * (config.slotDurationMs * 1_000_000) + offset, onlyIntervals) ==
      if forall x | IsCandidate(config, onlyIntervals, x) && x.slot == slot ::
           Start(config, x) < slot * (config.slotDurationMs * 1_000_000) + offset
      then TickNanos(config, slot) - TickNanos(config, slot + 1) else 0
    ensures forall elapsed: int | elapsed <= 0 :: EarlyBy(config, elapsed, onlyIntervals) == 0
  {
    hide TickNanos, EvenTicks, LastCandidate, PhaseAt;
    var elapsed := slot * SlotNanos(config) + offset;
    SlotStep(config, slot);
    DivUnique(elapsed, SlotNanos(config), slot);
    LastCandidateIsLast(config, slot, onlyIntervals);
    LagBounds(config, slot);
  }

  /** The last candidate of a slot is the last one to start. */
  lemma LastCandidateIsLast(config: Config, slot: nat, onlyIntervals: bool)
    requires EvenTicks(config)
    ensures exists x :: IsCandidate(config, onlyIntervals, x) && x.slot == slot
                        && Start(config, x) == slot * SlotNanos(config) + LastCandidate(config, slot, onlyIntervals)
    ensures forall x | IsCandidate(config, onlyIntervals, x) && x.slot == slot ::
      Start(config, x) <= slot * SlotNanos(config) + LastCandidate(config, slot, onlyIntervals)
  {
    hide TickNanos, SlotNanos, EvenTicks, PhaseAt;
    var last := TicksPerSlot(config, slot) - if onlyIntervals then 4 else 1;
    assert IsCandidate(config, onlyIntervals, Tick(slot, last));
    assert Start(config, Tick(slot, last)) == slot * SlotNanos(config) + LastCandidate(config, slot, onlyIntervals);
    forall x | IsCandidate(config, onlyIntervals, x) && x.slot == slot
      ensures Start(config, x) <= slot * SlotNanos(config) + LastCandidate(config, slot, onlyIntervals)
    {
      MulMonotone(x.kind, last, TickNanos(config, slot));
    }
  }

  /** The result of the search: what an exact search would find if it were later by `EarlyBy`. */
  ghost predicate SearchResult(config: Config, elapsed: int, onlyIntervals: bool, tick: Tick, remaining: nat)
    requires EvenTicks(config)
  {
    var searched := elapsed + EarlyBy(config, elapsed, onlyIntervals);
    IsNextTick(config, searched, onlyIntervals, tick) && remaining == Start(config, tick) - searched
  }

  /** There is one such result. */
  lemma SearchResultIsUnique(config: Config, elapsed: int, onlyIntervals: bool, a: Tick, x: nat, b: Tick, y: nat)
    requires EvenTicks(config)
    requires SearchResult(config, elapsed, onlyIntervals, a, x) && SearchResult(config, elapsed, onlyIntervals, b, y)
    ensures a == b && x == y
  {
    hide Start, EarlyBy, EvenTicks, TicksPerSlot;
  }

  /** No tick of the representable slots is left to be found. */
  ghost predicate NothingLeft(config: Config, elapsed: int, onlyIntervals: bool)
    requires EvenTicks(config)
  {
    forall x | IsCandidate(config, onlyIntervals, x) && x.slot <= U64_MAX ::
      Start(config, x) < elapsed + EarlyBy(config, elapsed, onlyIntervals)
  }

  /** What the search knows between two steps. */
  ghost predicate Searching(config: Config, slot: nat, offset: nat, onlyIntervals: bool, tick: Tick, toNext: nat) {
    && Located(config, slot, tick, toNext)
    && AllEarlier(
         config, slot * SlotNanos(config) + offset + (if tick.slot == slot then 0 else Lag(config, slot)),
         onlyIntervals, tick)
    && (tick.slot == slot + 1 ==> offset > LastCandidate(config, slot, onlyIntervals))
    && (tick.slot == slot + 1 && tick.kind > 0 ==> Lag(config, slot) > 0)
  }

  /** One step of either loop keeps what the search knows. */
  lemma SearchStep(config: Config, slot: nat, offset: nat, onlyIntervals: bool, tick: Tick, toNext: nat)
    requires EvenTicks(config) && offset < SlotNanos(config)
    requires Searching(config, slot, offset, onlyIntervals, tick, toNext)
    requires tick.slot == slot + 1 ==> Lag(config, slot) > 0 && tick.kind < 11
    requires IsCandidate(config, onlyIntervals, tick) ==> toNext < offset
    requires Next(config, tick).Ok?
    ensures var next := Next(config, tick).value;
            && next.slot <= slot + 1
            && Searching(config, slot, offset, onlyIntervals, next, toNext + TickNanos(config, next.slot))
  {
    hide TickNanos, SlotNanos, EvenTicks, Start, LastCandidate, Lag;
    LocatedStep(config, slot, tick, toNext);
    LagBounds(config, slot);
    var searched := slot * SlotNanos(config) + offset;
    if tick.slot == slot {
      AllEarlierStep(config, searched, onlyIntervals, tick);
      var next := Next(config, tick).value;
      if next.slot == slot + 1 {
        PassedLastCandidate(config, slot, offset, onlyIntervals, next);
      }
    } else {
      AllEarlierStep(config, searched + Lag(config, slot), onlyIntervals, tick);
    }
  }

  lemma PassedLastCandidate(config: Config, slot: nat, offset: nat, onlyIntervals: bool, next: Tick)
    requires AllEarlier(config, slot * SlotNanos(config) + offset, onlyIntervals, next)
    requires next == Tick(slot + 1, 0)
    ensures offset > LastCandidate(config, slot, onlyIntervals)
  {
    hide TickNanos, SlotNanos;
    var last := Tick(slot, TicksPerSlot(config, slot) - if onlyIntervals then 4 else 1);
    assert IsCandidate(config, onlyIntervals, last) && Before(last, next);
  }

  /** When the loops stop, the search has its result. */
  lemma SearchDone(config: Config, elapsed: nat, slot: nat, offset: nat, onlyIntervals: bool, tick: Tick, toNext: nat)
    requires EvenTicks(config) && elapsed > 0
    requires elapsed == slot * SlotNanos(config) + offset && offset < SlotNanos(config)
    requires Searching(config, slot, offset, onlyIntervals, tick, toNext)
    requires IsCandidate(config, onlyIntervals, tick) && offset <= toNext
    ensures SearchResult(config, elapsed, onlyIntervals, tick, toNext - offset)
  {
    hide TickNanos, EvenTicks, Start, LastCandidate;
    TicksFillSlot(config, slot);
    SlotStep(config, slot);
    DivUnique(elapsed, SlotNanos(config), slot);
    LagBounds(config, slot);
    hide SlotNanos;
    if tick.slot == slot {
      InSlotIsNotPast(config, slot, offset, onlyIntervals, tick, toNext);
    }
  }

  lemma InSlotIsNotPast(config: Config, slot: nat, offset: nat, onlyIntervals: bool, tick: Tick, toNext: nat)
    requires Located(config, slot, tick, toNext) && tick.slot == slot
    requires IsCandidate(config, onlyIntervals, tick) && offset <= toNext
    ensures offset <= LastCandidate(config, slot, onlyIntervals)
  {
    hide TickNanos, SlotNanos;
    var last := TicksPerSlot(config, slot) - if onlyIntervals then 4 else 1;
    MulMonotone(tick.kind, last, TickNanos(config, slot));
  }

  /** The two loops of `next_tick_with_instant`, from the start of the current slot. */
  method Search(config: Config, slot: nat, offset: nat, onlyIntervals: bool)
    returns (r: Result<(Tick, nat), ClockError>)
    requires EvenTicks(config) && slot <= U64_MAX && offset < SlotNanos(config)
    ensures r.Ok? ==> var (tick, toNext) := r.value;
                      && Searching(config, slot, offset, onlyIntervals, tick, toNext)
                      && IsCandidate(config, onlyIntervals, tick) && offset <= toNext
    ensures r.Err? ==> && r.error == RanOutOfSlots && slot == U64_MAX
                       && forall x | IsCandidate(config, onlyIntervals, x) && x.slot <= U64_MAX ::
                            Start(config, x) < slot * SlotNanos(config) + offset
  {
    hide TickNanos, SlotNanos, EvenTicks, Start, LastCandidate, TicksPerSlot, PhaseAt;
    var tick := Tick(slot, 0);
    var toNext: nat := 0;
    var duration, phase := TickNanos(config, slot), PhaseAt(config, slot);
    SearchingInitially(config, slot, offset);
    LagBounds(config, slot);

    while toNext < offset
      invariant Searching(config, slot, offset, false, tick, toNext)
      invariant phase == PhaseAt(config, tick.slot) && duration == TickNanos(config, tick.slot)
      invariant tick.slot == slot + 1 ==> tick.kind <= 1
      decreases slot + 2 - tick.slot, 16 - tick.kind
    {
      StillBehind(config, slot, offset, tick, toNext);
      var next := Next(config, tick);
      if next.Err? {
        LastOfAllTicks(config, slot * SlotNanos(config) + offset, false, tick);
        return Err(next.error);
      }
      SearchStep(config, slot, offset, false, tick, toNext);
      tick, duration, phase := Advance(config, next.value, duration, phase);
      toNext := toNext + duration;
    }

    if onlyIntervals {
      IntervalsAreEarlier(config, slot, offset, tick, toNext);
      while !IsIntervalStart(tick)
        invariant Searching(config, slot, offset, true, tick, toNext) && offset <= toNext
        invariant phase == PhaseAt(config, tick.slot) && duration == TickNanos(config, tick.slot)
        invariant tick.slot == slot + 1 ==> tick.kind <= 4
        decreases slot + 2 - tick.slot, 16 - tick.kind
      {
        var next := Next(config, tick);
        if next.Err? {
          LastOfAllTicks(config, slot * SlotNanos(config) + offset, true, tick);
          return Err(next.error);
        }
        SearchStep(config, slot, offset, true, tick, toNext);
        tick, duration, phase := Advance(config, next.value, duration, phase);
        toNext := toNext + duration;
      }
    }
    return Ok((tick, toNext));
  }

  /** A tick without a successor is the last one, so nothing comes after it. */
  lemma LastOfAllTicks(config: Config, elapsed: int, onlyIntervals: bool, tick: Tick)
    requires EvenTicks(config) && IsTick(config, tick) && tick.slot <= U64_MAX && Next(config, tick).Err?
    requires AllEarlier(config, elapsed, onlyIntervals, tick)
    requires IsCandidate(config, onlyIntervals, tick) ==> Start(config, tick) < elapsed
    ensures Next(config, tick).error == RanOutOfSlots && tick.slot == U64_MAX && tick.kind >= 11
    ensures forall x | IsCandidate(config, onlyIntervals, x) && x.slot <= U64_MAX :: Start(config, x) < elapsed
  {
    hide TickNanos, SlotNanos, EvenTicks, Start;
    NextIsSuccessor(config, tick);
  }

  /** The cached tick duration is recomputed only when the phase changes. */
  method Advance(config: Config, next: Tick, duration: nat, phase: nat)
    returns (tick: Tick, newDuration: nat, newPhase: nat)
    requires exists slot :: phase == PhaseAt(config, slot) && duration == TickNanos(config, slot)
    ensures tick == next
    ensures newPhase == PhaseAt(config, next.slot) && newDuration == TickNanos(config, next.slot)
  {
    tick, newDuration, newPhase := next, duration, phase;
    var nextPhase := PhaseAt(config, next.slot);
    if nextPhase != phase {
      newDuration := TickNanos(config, next.slot);
      newPhase := nextPhase;
    }
  }

  lemma SearchingInitially(config: Config, slot: nat, offset: nat)
    requires EvenTicks(config) && slot <= U64_MAX
    ensures Searching(config, slot, offset, false, Tick(slot, 0), 0)
  {
    hide TickNanos, SlotNanos, EvenTicks;
    AllEarlierInitially(config, slot * SlotNanos(config) + offset, slot);
  }

  /** Past the slot boundary the first loop goes on only because of the lag, and only from `Propose`. */
  lemma StillBehind(config: Config, slot: nat, offset: nat, tick: Tick, toNext: nat)
    requires EvenTicks(config) && offset < SlotNanos(config) && toNext < offset
    requires Searching(config, slot, offset, false, tick, toNext)
    ensures tick.slot == slot + 1 ==> tick.kind == 0 && Lag(config, slot) > 0
  {
    hide TickNanos, SlotNanos, EvenTicks, LastCandidate;
    if tick.slot == slot + 1 {
      LagBounds(config, slot);
      SlotStep(config, slot);
      if tick.kind > 0 {
        MulMonotone(1, tick.kind, TickNanos(config, slot + 1));
      }
    }
  }

  /** What holds for all ticks holds for the interval ticks among them. */
  lemma IntervalsAreEarlier(config: Config, slot: nat, offset: nat, tick: Tick, toNext: nat)
    requires Searching(config, slot, offset, false, tick, toNext)
    ensures Searching(config, slot, offset, true, tick, toNext)
  {
  }

  /** What a search at `nowInstant` has to return: the result if its instant can be represented, and an error only
      if it cannot or if there is no result. */
  ghost predicate IsSearchOutcome(
    config: Config, nowInstant: nat, elapsed: int, onlyIntervals: bool, maxInstant: nat,
    r: Result<(Tick, nat), ClockError>)
    requires EvenTicks(config)
  {
    match r
    case Ok((tick, instant)) =>
      && nowInstant <= instant <= maxInstant && tick.slot <= U64_MAX
      && SearchResult(config, elapsed, onlyIntervals, tick, instant - nowInstant)
    case Err(error) =>
      || (error == RanOutOfSlots && NothingLeft(config, elapsed, onlyIntervals))
      || (error == NextInstantOverflow && exists tick: Tick, remaining: nat ::
            && SearchResult(config, elapsed, onlyIntervals, tick, remaining)
            && tick.slot <= U64_MAX && nowInstant + remaining > maxInstant)
  }

  /** `next_tick_with_instant`. `sinceUnixEpoch` is the system time, `maxInstant` the last representable
      instant. The result is exact and least if and only if the search does not step over the fork. */
  method NextTickWithInstant(
    config: Config, nowInstant: nat, sinceUnixEpoch: nat, genesisMs: nat, onlyIntervals: bool, maxInstant: nat
  ) returns (r: Result<(Tick, nat), ClockError>)
    requires EvenTicks(config) && WholeSeconds(config)
    requires sinceUnixEpoch / NANOS_PER_SECOND <= U64_MAX
    ensures IsSearchOutcome(
              config, nowInstant, sinceUnixEpoch - genesisMs * NANOS_PER_MS, onlyIntervals, maxInstant, r)
    ensures var elapsed := sinceUnixEpoch - genesisMs * NANOS_PER_MS;
            r.Ok? ==> var (tick, instant) := r.value;
                      IsNextTick(config, elapsed, onlyIntervals, tick)
                      && instant - nowInstant == Start(config, tick) - elapsed
                      <==> !StepsOverFork(config, elapsed, onlyIntervals)
    ensures sinceUnixEpoch <= genesisMs * NANOS_PER_MS ==>
              var instant := nowInstant + genesisMs * NANOS_PER_MS - sinceUnixEpoch;
              r == if instant <= maxInstant then Ok((Tick(0, 0), instant)) else Err(NextInstantOverflow)
  {
    hide TickNanos, EvenTicks, Start, LastCandidate, TicksPerSlot, PhaseAt, StepsOverFork, EarlyBy, IsNextTick;
    var genesis := genesisMs * NANOS_PER_MS;
    var tick, remaining;
    if sinceUnixEpoch <= genesis {
      tick, remaining := Tick(0, 0), genesis - sinceUnixEpoch;
      GenesisIsNext(config, sinceUnixEpoch - genesis, onlyIntervals);
    } else {
      var elapsed := sinceUnixEpoch - genesis;
      SlotFromSeconds(config, elapsed);
      var slot := elapsed / NANOS_PER_SECOND / (config.slotDurationMs / 1000);
      SlotIsBounded(config, elapsed, sinceUnixEpoch, slot);
      hide SlotNanos;
      var offset := elapsed - slot * (config.slotDurationMs / 1000 * NANOS_PER_SECOND);
      var found := Search(config, slot, offset, onlyIntervals);
      if found.Err? {
        return Err(found.error);
      }
      tick := found.value.0;
      SearchDone(config, elapsed, slot, offset, onlyIntervals, tick, found.value.1);
      remaining := found.value.1 - offset;
    }
    if nowInstant + remaining > maxInstant {
      return Err(NextInstantOverflow);
    }
    return Ok((tick, nowInstant + remaining));
  }

  lemma GenesisIsNext(config: Config, elapsed: int, onlyIntervals: bool)
    requires EvenTicks(config) && elapsed <= 0
    ensures Start(config, Tick(0, 0)) == 0
    ensures SearchResult(config, elapsed, onlyIntervals, Tick(0, 0), -elapsed)
  {
  }

  lemma SlotIsBounded(config: Config, elapsed: nat, sinceUnixEpoch: nat, slot: nat)
    requires EvenTicks(config) && elapsed <= sinceUnixEpoch
    requires sinceUnixEpoch / NANOS_PER_SECOND <= U64_MAX
    requires slot == elapsed / SlotNanos(config)
    requires SlotNanos(config) >= NANOS_PER_SECOND
    ensures slot <= U64_MAX && slot <= sinceUnixEpoch / SlotNanos(config)
    ensures slot * SlotNanos(config) <= elapsed < slot * SlotNanos(config) + SlotNanos(config)
  {
    var length := SlotNanos(config);
    hide SlotNanos, EvenTicks;
    DivBounds(elapsed, length);
    DivBounds(sinceUnixEpoch, length);
    var later := sinceUnixEpoch / length;
    if later < slot {
      MulMonotone(later + 1, slot, length);
    }
    MulDistributes(slot, 1, length);
    if U64_MAX < slot {
      MulMonotone(slot, slot, length);
      MulMonotone(NANOS_PER_SECOND, length, slot);
    }
  }

  /** A schedule with 12-second slots in which Gloas starts in slot 1. */
  const GLOAS_IN_SLOT_1: Config :=
    Config(12000, [Some(0), Some(0), Some(0), Some(0), Some(0), Some(0), Some(0), Some(1)])

  lemma TicksAroundFork()
    ensures EvenTicks(GLOAS_IN_SLOT_1) && WholeSeconds(GLOAS_IN_SLOT_1)
    ensures TicksPerSlot(GLOAS_IN_SLOT_1, 0) == 12 && TicksPerSlot(GLOAS_IN_SLOT_1, 1) == 16
  {
    StartsWhenLastDoes(GLOAS_IN_SLOT_1.forkSlots, 0);
    StartsWhenLastDoes(GLOAS_IN_SLOT_1.forkSlots, 1);
  }

  /** A search 11.5 seconds after genesis steps over the fork. It finds the start of slot 1, which is half a second
      away, a quarter of a second early. */
  lemma SearchStepsOverFork()
    ensures EvenTicks(GLOAS_IN_SLOT_1) && WholeSeconds(GLOAS_IN_SLOT_1)
    ensures EarlyBy(GLOAS_IN_SLOT_1, 11_500_000_000, false) == 250_000_000
    ensures Start(GLOAS_IN_SLOT_1, Tick(1, 0)) - 11_500_000_000 == 500_000_000
    ensures SearchResult(GLOAS_IN_SLOT_1, 11_500_000_000, false, Tick(1, 0), 250_000_000)
  {
    hide StartedPhases, PhaseAt, TicksPerSlot, IsNextTick;
    TicksAroundFork();
    EarlyInSlotZero();
    NextAfterSlotZero();
  }

  lemma EarlyInSlotZero()
    requires EvenTicks(GLOAS_IN_SLOT_1)
    requires TicksPerSlot(GLOAS_IN_SLOT_1, 0) == 12 && TicksPerSlot(GLOAS_IN_SLOT_1, 1) == 16
    ensures EarlyBy(GLOAS_IN_SLOT_1, 11_500_000_000, false) == 250_000_000
  {
    hide StartedPhases, PhaseAt, TicksPerSlot;
    assert 11_500_000_000 / SlotNanos(GLOAS_IN_SLOT_1) == 0;
  }

  /** Every tick of slot 0 starts 11 seconds after genesis or earlier. */
  lemma NextAfterSlotZero()
    requires EvenTicks(GLOAS_IN_SLOT_1)
    requires TicksPerSlot(GLOAS_IN_SLOT_1, 0) == 12 && TicksPerSlot(GLOAS_IN_SLOT_1, 1) == 16
    ensures IsNextTick(GLOAS_IN_SLOT_1, 11_750_000_000, false, Tick(1, 0))
  {
    hide StartedPhases, PhaseAt, TicksPerSlot;
  }

  /** What the search returns there. */
  method SearchAtFork(nowInstant: nat, maxInstant: nat) returns (r: Result<(Tick, nat), ClockError>)
    ensures r == if nowInstant + 250_000_000 <= maxInstant then Ok((Tick(1, 0), nowInstant + 250_000_000))
                 else Err(NextInstantOverflow)
  {
    hide StepsOverFork, EarlyBy, SearchResult, TicksPerSlot, StartedPhases, Start;
    SearchStepsOverFork();
    r := NextTickWithInstant(GLOAS_IN_SLOT_1, nowInstant, 11_500_000_000, 0, false, maxInstant);
    SlotOneIsLeft();
    if r.Ok? {
      SearchResultIsUnique(
        GLOAS_IN_SLOT_1, 11_500_000_000, false, Tick(1, 0), 250_000_000, r.value.0, r.value.1 - nowInstant);
    } else {
      ghost var tick: Tick, remaining: nat :|
        SearchResult(GLOAS_IN_SLOT_1, 11_500_000_000, false, tick, remaining) && nowInstant + remaining > maxInstant;
      SearchResultIsUnique(GLOAS_IN_SLOT_1, 11_500_000_000, false, Tick(1, 0), 250_000_000, tick, remaining);
    }
  }

  lemma SlotOneIsLeft()
    requires EvenTicks(GLOAS_IN_SLOT_1)
    requires SearchResult(GLOAS_IN_SLOT_1, 11_500_000_000, false, Tick(1, 0), 250_000_000)
    ensures !NothingLeft(GLOAS_IN_SLOT_1, 11_500_000_000, false)
  {
    hide EarlyBy, TicksPerSlot, Start;
    assert IsCandidate(GLOAS_IN_SLOT_1, false, Tick(1, 0));
  }

  lemma {:induction false} StartsWhenLastDoes(forks: seq<Option<nat>>, slot: nat)
    requires |forks| > 0 && forks[|forks| - 1].Some?
    requires forall i | 0 <= i < |forks| - 1 :: forks[i] == Some(0)
    ensures StartedPhases(forks, slot) == |forks| - if forks[|forks| - 1].value <= slot then 0 else 1
  {
    if |forks| > 1 {
      StartsWhenLastDoes(forks[1..], slot);
    }
  }

  // --- The stream -----------------------------------------------------------------------------

  /** `emitted` lists, in order and once each, the emitted ticks from `first` on that lie before `next`. */
  ghost predicate ListsEmitted(config: Config, first: Tick, next: Tick, emitted: seq<Tick>) {
    && (forall i, j | 0 <= i < j < |emitted| :: Before(emitted[i], emitted[j]))
    && (forall x | x in emitted :: IsTick(config, x))
    && (forall x | IsTick(config, x) :: x in emitted <==> IsEmitted(x) && !Before(x, first) && Before(x, next))
  }

  /** The least emitted tick from `from` on. */
  ghost predicate IsFirstEmitted(config: Config, from: Tick, tick: Tick) {
    && IsTick(config, tick) && IsEmitted(tick) && !Before(tick, from)
    && forall x | IsTick(config, x) && IsEmitted(x) && !Before(x, from) :: !Before(x, tick)
  }

  lemma ListsEmittedStep(config: Config, first: Tick, from: Tick, tick: Tick, emitted: seq<Tick>)
    requires EvenTicks(config) && tick.slot <= U64_MAX && Next(config, tick).Ok?
    requires !Before(from, first) && ListsEmitted(config, first, from, emitted)
    requires IsFirstEmitted(config, from, tick)
    ensures !Before(Next(config, tick).value, first)
    ensures ListsEmitted(config, first, Next(config, tick).value, emitted + [tick])
  {
  }

  /** The first tick of interest from `tick` on; it lies in the same slot. */
  function FirstEmitted(tick: Tick): (r: Tick) {
    if IsEmitted(tick) then tick else Tick(tick.slot, tick.kind - tick.kind % 4 + 3)
  }

  lemma FirstEmittedIsFirst(config: Config, tick: Tick)
    requires IsTick(config, tick)
    ensures IsFirstEmitted(config, tick, FirstEmitted(tick))
  {
    hide PhaseAt;
  }

  /** Why a tick cannot be emitted: the deadline of its successor cannot be represented, or it has no successor. */
  function Blocker(config: Config, tick: Tick, genesis: int, maxInstant: nat): (r: Option<ClockError>) {
    match Next(config, tick)
    case Ok(next) => if genesis + Start(config, next) > maxInstant then Some(NextInstantOverflow) else None
    case Err(error) => Some(if genesis + Start(config, tick) > maxInstant then NextInstantOverflow else error)
  }

  /** A tick can be emitted exactly when it is not the very last tick and it ends at an instant that can be represented.
      The last tick is the only one that runs out of slots. */
  lemma BlockedExactlyWhen(config: Config, tick: Tick, genesis: int, maxInstant: nat)
    requires EvenTicks(config) && IsTick(config, tick) && tick.slot <= U64_MAX
    ensures Blocker(config, tick, genesis, maxInstant) ==
      if tick.slot == U64_MAX && tick.kind + 1 == TicksPerSlot(config, tick.slot) then
        Some(if genesis + Start(config, tick) > maxInstant then NextInstantOverflow else RanOutOfSlots)
      else if genesis + Start(config, tick) + TickNanos(config, tick.slot) > maxInstant then Some(NextInstantOverflow)
      else None
  {
    hide TickNanos, SlotNanos, EvenTicks, Start, PhaseAt;
    NextIsSuccessor(config, tick);
  }

  /** What a poll with `tick` pending has to yield: the first tick of interest with its instant, and the tick after it
      with its deadline, unless that tick is blocked. */
  function Emission(config: Config, tick: Tick, genesis: int, maxInstant: nat):
    (r: Result<(Tick, int, Tick, int), ClockError>)
  {
    var current := FirstEmitted(tick);
    match Blocker(config, current, genesis, maxInstant)
    case Some(error) => Err(error)
    case None =>
      var next := Next(config, current).value;
      Ok((current, genesis + Start(config, current), next, genesis + Start(config, next)))
  }

  /** The emission in terms of the schedule. */
  lemma EmissionMeans(config: Config, tick: Tick, genesis: int, maxInstant: nat)
    requires EvenTicks(config) && IsTick(config, tick) && tick.slot <= U64_MAX
    ensures var r := Emission(config, tick, genesis, maxInstant);
      forall x | IsFirstEmitted(config, tick, x) ::
        var last := x.slot == U64_MAX && x.kind + 1 == TicksPerSlot(config, x.slot);
        var start, end := genesis + Start(config, x), genesis + Start(config, x) + TickNanos(config, x.slot);
        && (r.Ok? <==> !last && end <= maxInstant)
        && (r.Ok? ==> r.value.0 == x && r.value.1 == start && Next(config, x) == Ok(r.value.2) && r.value.3 == end)
        && (r.Err? ==> r.error == if last && start <= maxInstant then RanOutOfSlots else NextInstantOverflow)
  {
    hide TickNanos, SlotNanos, EvenTicks, Start, TicksPerSlot, Next, Blocker, IsEmitted;
    var first := FirstEmitted(tick);
    FirstEmittedIsFirst(config, tick);
    FirstEmittedIsTick(config, tick);
    BlockedExactlyWhen(config, first, genesis, maxInstant);
    BlockedWithoutNext(config, first, genesis, maxInstant);
    NextIsSuccessor(config, first);
    assert forall x | IsFirstEmitted(config, tick, x) :: x == first;
  }

  lemma BlockedWithoutNext(config: Config, tick: Tick, genesis: int, maxInstant: nat)
    ensures Blocker(config, tick, genesis, maxInstant) == None ==> Next(config, tick).Ok?
  {
  }

  lemma OverflowsBefore(config: Config, tick: Tick, genesis: int, maxInstant: nat)
    requires EvenTicks(config) && IsTick(config, tick) && tick.slot <= U64_MAX && Next(config, tick).Ok?
    requires genesis + Start(config, Next(config, tick).value) > maxInstant
    ensures Blocker(config, FirstEmitted(tick), genesis, maxInstant) == Some(NextInstantOverflow)
  {
    hide TickNanos, SlotNanos, EvenTicks, Start;
    var current, next := FirstEmitted(tick), Next(config, tick).value;
    FirstEmittedIsFirst(config, tick);
    NextIsSuccessor(config, tick);
    NextIsSuccessor(config, current);
    if Before(next, current) {
      StartMonotone(config, next, current);
    }
    if Next(config, current).Ok? && Before(next, Next(config, current).value) {
      StartMonotone(config, next, Next(config, current).value);
    }
  }

  /** A tick that is not emitted has its successor in the same slot, closer to the same emitted tick. */
  lemma PassesOver(config: Config, tick: Tick)
    requires IsTick(config, tick) && !IsEmitted(tick)
    ensures Next(config, tick) == Ok(Tick(tick.slot, tick.kind + 1))
    ensures FirstEmitted(Tick(tick.slot, tick.kind + 1)) == FirstEmitted(tick) != tick
    ensures FirstEmitted(tick).kind <= tick.kind + 2
  {
    hide PhaseAt;
  }

  /** The inner loop of the stream: sleep and step until a tick of interest comes up; at most three steps. */
  method UntilEmitted(config: Config, tick: Tick, deadline: nat, maxInstant: nat, ghost genesis: int)
    returns (r: Result<(Tick, nat, Tick, nat), ClockError>, ghost steps: nat)
    requires EvenTicks(config) && IsTick(config, tick) && tick.slot <= U64_MAX
    requires deadline == genesis + Start(config, tick) <= maxInstant
    ensures steps <= 3
    ensures r == Emission(config, tick, genesis, maxInstant)
    ensures forall x | IsFirstEmitted(config, tick, x) ::
      var last := x.slot == U64_MAX && x.kind + 1 == TicksPerSlot(config, x.slot);
      var start, end := genesis + Start(config, x), genesis + Start(config, x) + TickNanos(config, x.slot);
      && (r.Ok? <==> !last && end <= maxInstant)
      && (r.Ok? ==> r.value.0 == x && r.value.1 == start && Next(config, x) == Ok(r.value.2) && r.value.3 == end)
      && (r.Err? ==> r.error == if last && start <= maxInstant then RanOutOfSlots else NextInstantOverflow)
  {
    hide TickNanos, SlotNanos, EvenTicks, Start, FirstEmitted, IsEmitted, Next;
    var next := tick;
    var due: nat := deadline;
    steps := 0;
    EmittedIsFirst(config, tick);
    while true
      invariant IsTick(config, next) && next.slot == tick.slot && next.kind == tick.kind + steps
      invariant due == genesis + Start(config, next) <= maxInstant
      invariant FirstEmitted(next) == FirstEmitted(tick) && next.kind <= FirstEmitted(tick).kind <= tick.kind + 2
      decreases 4 - steps
    {
      var current := next;
      var successor := Next(config, current);
      NextIsSuccessor(config, current);
      EmittedIsFirst(config, current);
      steps := steps + 1;
      if !IsEmitted(current) {
        PassesOver(config, current);
      }
      if successor.Err? {
        r := Err(successor.error);
        break;
      }
      var duration := TickNanos(config, current.slot);
      if due + duration > maxInstant {
        OverflowsBefore(config, current, genesis, maxInstant);
        r := Err(NextInstantOverflow);
        break;
      }
      if IsEmitted(current) {
        r := Ok((current, due, successor.value, due + duration));
        break;
      }
      EmittedIsFirst(config, successor.value);
      next, due := successor.value, due + duration;
    }
    assert r == Emission(config, tick, genesis, maxInstant);
    EmissionMeans(config, tick, genesis, maxInstant);
  }

  lemma EmittedIsFirst(config: Config, tick: Tick)
    requires IsTick(config, tick)
    ensures IsEmitted(tick) ==> FirstEmitted(tick) == tick
    ensures tick.kind <= FirstEmitted(tick).kind <= tick.kind + 2
  {
    hide PhaseAt;
  }

  /** The state carried between polls of the stream returned by `ticks`. */
  class Stream {
    const config: Config
    const maxInstant: nat
    var nextTick: Tick
    var deadline: nat
    var failed: bool
    // The first tick, the instant that stands for genesis, and everything emitted so far together
    // with the deadline that was slept for.
    ghost const first: Tick
    ghost const genesis: int
    ghost var emitted: seq<Tick>
    ghost var wokenAt: seq<int>

    ghost predicate Valid()
      reads this
    {
      && EvenTicks(config) && IsTick(config, nextTick) && nextTick.slot <= U64_MAX
      && deadline == genesis + Start(config, nextTick) <= maxInstant
      && !Before(nextTick, first)
      && ListsEmitted(config, first, nextTick, emitted)
      && |wokenAt| == |emitted|
      && (forall i | 0 <= i < |emitted| :: wokenAt[i] == genesis + Start(config, emitted[i]))
      && (forall i | 0 <= i < |emitted| :: Blocker(config, emitted[i], genesis, maxInstant) == None)
    }

    constructor (config: Config, first: Tick, instant: nat, maxInstant: nat)
      requires EvenTicks(config) && IsTick(config, first) && first.slot <= U64_MAX && instant <= maxInstant
      ensures Valid() && !failed && emitted == []
      ensures this.config == config && this.maxInstant == maxInstant && nextTick == first
      ensures this.first == first && genesis == instant - Start(config, first)
    {
      this.config, this.maxInstant := config, maxInstant;
      nextTick, deadline, failed := first, instant, false;
      this.first, genesis := first, instant - Start(config, first);
      emitted, wokenAt := [], [];
    }

    /** Yields the next emitted tick at its scheduled time, or says why it is blocked. */
    method Poll() returns (r: Result<(Tick, nat), ClockError>)
      requires Valid() && !failed
      modifies this
      ensures Valid() && failed == r.Err?
      ensures var emission := Emission(config, old(nextTick), genesis, maxInstant);
              if emission.Ok? then
                && r == Ok((emission.value.0, emission.value.1))
                && emitted == old(emitted) + [emission.value.0] && wokenAt == old(wokenAt) + [emission.value.1]
              else
                && r == Err(emission.error) && emitted == old(emitted) && wokenAt == old(wokenAt)
                && nextTick == old(nextTick) && deadline == old(deadline)
      ensures forall x | IsFirstEmitted(config, old(nextTick), x) ::
        var last := x.slot == U64_MAX && x.kind + 1 == TicksPerSlot(config, x.slot);
        var start, end := genesis + Start(config, x), genesis + Start(config, x) + TickNanos(config, x.slot);
        && (r.Ok? <==> !last && end <= maxInstant)
        && (r.Ok? ==> r.value == (x, start) && Next(config, x) == Ok(nextTick) && deadline == end)
        && (r.Err? ==> r.error == if last && start <= maxInstant then RanOutOfSlots else NextInstantOverflow)
    {
      hide TickNanos, SlotNanos, EvenTicks, Start, ListsEmitted, TicksPerSlot, FirstEmitted, IsFirstEmitted;
      var step, _ := UntilEmitted(config, nextTick, deadline, maxInstant, genesis);
      if step.Err? {
        failed := true;
        return Err(step.error);
      }
      var (current, woken, next, due) := step.value;
      FirstEmittedIsFirst(config, nextTick);
      FirstEmittedIsTick(config, nextTick);
      NextIsSuccessor(config, current);
      ListsEmittedStep(config, first, nextTick, current, emitted);
      emitted, wokenAt := emitted + [current], wokenAt + [woken as int];
      nextTick, deadline := next, due;
      return Ok((current, woken));
    }
  }

  lemma FirstEmittedIsTick(config: Config, tick: Tick)
    requires IsTick(config, tick)
    ensures IsTick(config, FirstEmitted(tick)) && FirstEmitted(tick).slot == tick.slot
  {
    hide PhaseAt;
  }

  /** Ticks from the least tick at or after a time on are the ticks that start at or after it. */
  lemma FromFirstOn(config: Config, searched: int, first: Tick, next: Tick, ticks: seq<Tick>)
    requires EvenTicks(config) && IsNextTick(config, searched, false, first)
    requires ListsEmitted(config, first, next, ticks)
    ensures forall x | IsTick(config, x) :: !Before(x, first) <==> searched <= Start(config, x)
    ensures |ticks| > 0 ==> forall x | IsTick(config, x) :: x in ticks <==>
              IsEmitted(x) && searched <= Start(config, x) && !Before(ticks[|ticks| - 1], x)
  {
    hide TickNanos, SlotNanos, EvenTicks, Start, TicksPerSlot;
    forall x | IsTick(config, x)
      ensures !Before(x, first) <==> searched <= Start(config, x)
    {
      if Before(first, x) {
        StartMonotone(config, first, x);
      }
      assert IsCandidate(config, false, x);
    }
    if |ticks| > 0 {
      var last := ticks[|ticks| - 1];
      assert last in ticks;
      forall x | IsTick(config, x)
        ensures x in ticks <==> IsEmitted(x) && searched <= Start(config, x) && !Before(last, x)
      {
      }
    }
  }

  /** The emitted tick that follows those already emitted: the least later one that starts at or after `searched`. */
  ghost predicate IsFollowing(config: Config, searched: int, ticks: seq<Tick>, tick: Tick) {
    && IsTick(config, tick) && IsEmitted(tick) && searched <= Start(config, tick) && tick !in ticks
    && forall x | IsTick(config, x) && IsEmitted(x) && searched <= Start(config, x) && x !in ticks :: !Before(x, tick)
  }

  lemma FollowingIsFirst(config: Config, searched: int, first: Tick, next: Tick, ticks: seq<Tick>)
    requires EvenTicks(config) && IsNextTick(config, searched, false, first) && IsTick(config, next)
    requires ListsEmitted(config, first, next, ticks) && !Before(next, first)
    ensures IsFollowing(config, searched, ticks, FirstEmitted(next))
  {
    hide TickNanos, SlotNanos, EvenTicks, Start, FirstEmitted, IsNextTick, TicksPerSlot;
    FromFirstOn(config, searched, first, next, ticks);
    FirstEmittedIsFirst(config, next);
  }

  /** `ticks`, polled `polls` times. The ticks are the emitted ticks that start at or after the time searched, in order
      and none left out, each at its scheduled time less what the search was early by. The stream fails exactly when
      the search does or the tick that follows cannot be emitted. */
  method Ticks(
    config: Config, nowInstant: nat, sinceUnixEpoch: nat, genesisMs: nat, maxInstant: nat, polls: nat
  ) returns (ticks: seq<Tick>, instants: seq<int>, error: Option<ClockError>)
    requires EvenTicks(config) && WholeSeconds(config)
    requires sinceUnixEpoch / NANOS_PER_SECOND <= U64_MAX
    ensures |instants| == |ticks| <= polls && (error.None? ==> |ticks| == polls)
    ensures var elapsed := sinceUnixEpoch - genesisMs * NANOS_PER_MS;
            var searched := elapsed + EarlyBy(config, elapsed, false);
            var genesis := nowInstant - searched;
            && (forall i | 0 <= i < |ticks| :: instants[i] == genesis + Start(config, ticks[i]))
            && (forall i | 0 <= i < |ticks| ::
                  && !(ticks[i].slot == U64_MAX && ticks[i].kind + 1 == TicksPerSlot(config, ticks[i].slot))
                  && genesis + Start(config, ticks[i]) + TickNanos(config, ticks[i].slot) <= maxInstant)
            && (|ticks| > 0 ==> forall x | IsTick(config, x) :: x in ticks <==>
                  IsEmitted(x) && searched <= Start(config, x) && !Before(ticks[|ticks| - 1], x))
            && (error.Some? ==>
                  || (ticks == [] && IsSearchOutcome(config, nowInstant, elapsed, false, maxInstant, Err(error.value)))
                  || exists x ::
                       && |ticks| < polls && IsFollowing(config, searched, ticks, x)
                       && var last := x.slot == U64_MAX && x.kind + 1 == TicksPerSlot(config, x.slot);
                          var start := genesis + Start(config, x);
                          && (last || start + TickNanos(config, x.slot) > maxInstant)
                          && error.value == if last && start <= maxInstant then RanOutOfSlots else NextInstantOverflow)
    ensures forall i, j | 0 <= i < j < |ticks| :: Before(ticks[i], ticks[j])
  {
    hide TickNanos, SlotNanos, EvenTicks, Start, LastCandidate, StepsOverFork, EarlyBy, IsNextTick, ListsEmitted;
    hide Blocker, IsFirstEmitted, TicksPerSlot, Next, IsEmitted, FirstEmitted;
    ticks, instants, error := [], [], None;
    var found := NextTickWithInstant(config, nowInstant, sinceUnixEpoch, genesisMs, false, maxInstant);
    if found.Err? {
      return [], [], Some(found.error);
    }
    ghost var elapsed := sinceUnixEpoch - genesisMs * NANOS_PER_MS;
    ghost var searched := elapsed + EarlyBy(config, elapsed, false);
    var (first, instant) := found.value;
    NextTickIsTick(config, searched, first);
    var stream := new Stream(config, first, instant, maxInstant);
    while |ticks| < polls && error.None?
      invariant stream.Valid() && stream.failed == error.Some?
      invariant stream.config == config && stream.first == first && stream.maxInstant == maxInstant
      invariant stream.genesis == nowInstant - searched
      invariant ticks == stream.emitted && instants == stream.wokenAt && |ticks| <= polls
      invariant error.Some? ==>
        |ticks| < polls && Blocker(config, FirstEmitted(stream.nextTick), stream.genesis, maxInstant) == error
      invariant fresh(stream)
      decreases polls - |ticks|, error.None?
    {
      var r := stream.Poll();
      if r.Err? {
        error := Some(r.error);
      } else {
        ticks, instants := ticks + [r.value.0], instants + [r.value.1 as int];
      }
    }
    FromFirstOn(config, searched, first, stream.nextTick, ticks);
    FollowingIsFirst(config, searched, first, stream.nextTick, ticks);
    ListedAscending(config, first, stream.nextTick, ticks);
    EmittedEndInTime(config, first, stream.nextTick, ticks, stream.genesis, maxInstant);
    FirstEmittedIsTick(config, stream.nextTick);
    BlockedExactlyWhen(config, FirstEmitted(stream.nextTick), stream.genesis, maxInstant);
  }

  lemma EmittedEndInTime(config: Config, first: Tick, next: Tick, ticks: seq<Tick>, genesis: int, maxInstant: nat)
    requires EvenTicks(config) && ListsEmitted(config, first, next, ticks) && next.slot <= U64_MAX
    requires forall i | 0 <= i < |ticks| :: Blocker(config, ticks[i], genesis, maxInstant) == None
    ensures forall i | 0 <= i < |ticks| ::
      && !(ticks[i].slot == U64_MAX && ticks[i].kind + 1 == TicksPerSlot(config, ticks[i].slot))
      && genesis + Start(config, ticks[i]) + TickNanos(config, ticks[i].slot) <= maxInstant
  {
    hide TickNanos, SlotNanos, EvenTicks, Start, TicksPerSlot, Blocker, IsEmitted;
    forall i | 0 <= i < |ticks|
      ensures !(ticks[i].slot == U64_MAX && ticks[i].kind + 1 == TicksPerSlot(config, ticks[i].slot))
      ensures genesis + Start(config, ticks[i]) + TickNanos(config, ticks[i].slot) <= maxInstant
    {
      assert ticks[i] in ticks;
      BlockedExactlyWhen(config, ticks[i], genesis, maxInstant);
    }
  }

  lemma NextTickIsTick(config: Config, searched: int, tick: Tick)
    requires IsNextTick(config, searched, false, tick)
    ensures IsTick(config, tick)
  {
  }

  lemma ListedAscending(config: Config, first: Tick, next: Tick, ticks: seq<Tick>)
    requires ListsEmitted(config, first, next, ticks)
    ensures forall i, j | 0 <= i < j < |ticks| :: Before(ticks[i], ticks[j])
  {
  }
}
