/** The circuit breaker of the builder API: no external builder while too many slots are empty. */
module BuilderApi {
  import opened Results
  import opened Arithmetic

  const GENESIS_SLOT: nat := 0

  datatype Config = Config(disableChecks: bool, maxSkippedSlots: nat, maxSkippedSlotsPerEpoch: nat)

  datatype Error = ConsecutiveMissingBlocks(missingBlocks: nat) | RollingEpochMissingBlocks(missingBlocks: nat)

  function AbsDiff(a: nat, b: nat): nat {
    if a >= b then a - b else b - a
  }

  function PreviousSlot(slot: nat): nat {
    if slot == 0 then GENESIS_SLOT else Max(slot - 1, GENESIS_SLOT)
  }

  ghost predicate Descending(slots: seq<nat>) {
    forall i, j | 0 <= i < j < |slots| :: slots[i] > slots[j]
  }

  /** How many slots after `from` and up to `to` have no block. */
  function EmptySlots(nonempty: seq<nat>, from: nat, to: nat): (r: nat)
    ensures r <= to
  {
    if to <= from then 0 else EmptySlots(nonempty, from, to - 1) + if to in nonempty then 0 else 1
  }

  lemma {:induction false} EmptySlotsSplit(nonempty: seq<nat>, from: nat, middle: nat, to: nat)
    requires from <= middle <= to
    ensures EmptySlots(nonempty, from, to) == EmptySlots(nonempty, from, middle) + EmptySlots(nonempty, middle, to)
  {
    if middle < to {
      EmptySlotsSplit(nonempty, from, middle, to - 1);
    }
  }

  lemma {:induction false} AllEmpty(nonempty: seq<nat>, from: nat, to: nat)
    requires from <= to && forall slot | from < slot <= to :: slot !in nonempty
    ensures EmptySlots(nonempty, from, to) == to - from
  {
    if from < to {
      AllEmpty(nonempty, from, to - 1);
    }
  }

  /** The empty slots are counted one by one. */
  lemma {:induction false} EmptySlotsAreCounted(nonempty: seq<nat>, from: nat, to: nat)
    ensures EmptySlots(nonempty, from, to) == |set slot | from < slot <= to && slot !in nonempty|
  {
    var empty := set slot | from < slot <= to && slot !in nonempty;
    if to <= from {
      assert empty == {};
    } else {
      EmptySlotsAreCounted(nonempty, from, to - 1);
      var before := set slot | from < slot <= to - 1 && slot !in nonempty;
      assert empty == before + if to in nonempty then {} else {to};
    }
  }

  /** Between two neighbouring blocks all slots are empty. */
  lemma GapOf(nonempty: seq<nat>, from: nat, to: nat)
    requires from < to && to in nonempty && forall slot | from < slot < to :: slot !in nonempty
    ensures EmptySlots(nonempty, from, to) == to - from - 1
  {
    AllEmpty(nonempty, from, to - 1);
  }

  function Head(nonempty: seq<nat>): nat {
    if nonempty == [] then GENESIS_SLOT else nonempty[0]
  }

  function StartSlot(slot: nat, slotsPerEpoch: nat): nat {
    Max(SaturatingSub(PreviousSlot(slot), slotsPerEpoch), GENESIS_SLOT)
  }

  /** The empty slots since the head. */
  function TrailingGap(slot: nat, nonempty: seq<nat>): nat {
    EmptySlots(nonempty, Head(nonempty), PreviousSlot(slot))
  }

  /** The empty slots of the last rolling epoch, or since the head if that is older. */
  function RollingGap(slot: nat, nonempty: seq<nat>, slotsPerEpoch: nat): nat {
    EmptySlots(
      nonempty, Min(StartSlot(slot, slotsPerEpoch), Head(nonempty)), Max(PreviousSlot(slot), Head(nonempty)))
  }

  /** `can_use_builder_api`. The blocks are listed from the head back. */
  method CanUseBuilderApi(config: Config, slot: nat, nonempty: seq<nat>, slotsPerEpoch: nat) returns (r: Option<Error>)
    requires slot <= U64_MAX && Descending(nonempty) && forall i | 0 <= i < |nonempty| :: nonempty[i] <= U64_MAX
    ensures r ==
      if config.disableChecks then None
      else if TrailingGap(slot, nonempty) > config.maxSkippedSlots then
        Some(ConsecutiveMissingBlocks(TrailingGap(slot, nonempty)))
      else if RollingGap(slot, nonempty, slotsPerEpoch) > config.maxSkippedSlotsPerEpoch then
        Some(RollingEpochMissingBlocks(RollingGap(slot, nonempty, slotsPerEpoch)))
      else None
  {
    hide EmptySlots;
    if config.disableChecks {
      return None;
    }
    var endSlot := PreviousSlot(slot);
    var headSlot := Head(nonempty);
    TrailingIsEmpty(slot, nonempty);
    var missingBlocks := SaturatingSub(endSlot, headSlot);
    if missingBlocks > config.maxSkippedSlots {
      return Some(ConsecutiveMissingBlocks(missingBlocks));
    }
    var startSlot := StartSlot(slot, slotsPerEpoch);
    var sum := SumOfGaps(nonempty, startSlot);
    RollingIsSum(slot, nonempty, slotsPerEpoch);
    missingBlocks := SaturatingAdd(missingBlocks, sum);
    if missingBlocks > config.maxSkippedSlotsPerEpoch {
      return Some(RollingEpochMissingBlocks(missingBlocks));
    }
    r := None;
  }

  lemma TrailingIsEmpty(slot: nat, nonempty: seq<nat>)
    requires Descending(nonempty)
    ensures TrailingGap(slot, nonempty) == SaturatingSub(PreviousSlot(slot), Head(nonempty))
  {
    if Head(nonempty) <= PreviousSlot(slot) {
      AllEmpty(nonempty, Head(nonempty), PreviousSlot(slot));
    }
  }

  lemma RollingIsSum(slot: nat, nonempty: seq<nat>, slotsPerEpoch: nat)
    requires Descending(nonempty)
    ensures RollingGap(slot, nonempty, slotsPerEpoch) ==
      TrailingGap(slot, nonempty) + EmptySlots(nonempty, StartSlot(slot, slotsPerEpoch), Head(nonempty))
  {
    hide EmptySlots;
    var start, head, end := StartSlot(slot, slotsPerEpoch), Head(nonempty), PreviousSlot(slot);
    NoneEmptyBetween(nonempty, start, head);
    NoneEmptyBetween(nonempty, head, end);
    EmptySlotsSplit(nonempty, Min(start, head), head, Max(end, head));
    NoneEmptyBetween(nonempty, head, head);
  }

  lemma NoneEmptyBetween(nonempty: seq<nat>, from: nat, to: nat)
    ensures to <= from ==> EmptySlots(nonempty, from, to) == 0
  {
  }

  /** The sum over neighbouring pairs of the blocks after `startSlot`, closed by `startSlot` itself. */
  method SumOfGaps(nonempty: seq<nat>, startSlot: nat) returns (sum: nat)
    requires Descending(nonempty)
    ensures sum == EmptySlots(nonempty, startSlot, Head(nonempty))
  {
    hide EmptySlots;
    sum := 0;
    var n := 0;
    NoneEmptyBetween(nonempty, startSlot, Head(nonempty));
    NoneEmptyBetween(nonempty, Head(nonempty), Head(nonempty));
    while n < |nonempty| && nonempty[n] > startSlot
      invariant n <= |nonempty| && forall i | 0 <= i < n :: nonempty[i] > startSlot
      invariant var low := if n < |nonempty| then Max(nonempty[n], startSlot) else startSlot;
        low <= Max(Head(nonempty), startSlot) && sum == EmptySlots(nonempty, low, Head(nonempty))
    {
      var current := nonempty[n];
      var parent := if n + 1 < |nonempty| && nonempty[n + 1] > startSlot then nonempty[n + 1] else startSlot;
      GapOf(nonempty, parent, current);
      EmptySlotsSplit(nonempty, parent, current, Head(nonempty));
      sum := sum + SaturatingSub(AbsDiff(current, Max(parent, startSlot)), 1);
      n := n + 1;
    }
  }

  /** Both gaps in terms of the slot: the empty slots before it since the head, and those since the head or the rolling
      epoch before the previous slot, whichever began earlier. */
  lemma GapsBySlot(slot: nat, nonempty: seq<nat>, slotsPerEpoch: nat)
    ensures var head := if nonempty == [] then 0 else nonempty[0];
      var start := if slot > slotsPerEpoch then slot - 1 - slotsPerEpoch else 0;
      && TrailingGap(slot, nonempty) == |set t | head < t < slot && t !in nonempty|
      && RollingGap(slot, nonempty, slotsPerEpoch) ==
         |set t | Min(start, head) < t < Max(slot, head + 1) && t !in nonempty|
  {
    hide EmptySlots;
    var head := if nonempty == [] then 0 else nonempty[0];
    var start := if slot > slotsPerEpoch then slot - 1 - slotsPerEpoch else 0;
    EmptySlotsAreCounted(nonempty, head, PreviousSlot(slot));
    EmptySlotsAreCounted(nonempty, Min(start, head), Max(PreviousSlot(slot), head));
    assert (set t | head < t < slot && t !in nonempty) == set t | head < t <= PreviousSlot(slot) && t !in nonempty;
    assert (set t | Min(start, head) < t < Max(slot, head + 1) && t !in nonempty) ==
           set t | Min(start, head) < t <= Max(PreviousSlot(slot), head) && t !in nonempty;
  }

  /** With the head not after the previous slot, the check passes exactly when the empty slots since the head and
      those of the last rolling epoch are within their limits. */
  lemma GapsWithHeadInPast(slot: nat, nonempty: seq<nat>, slotsPerEpoch: nat)
    requires Head(nonempty) <= PreviousSlot(slot)
    ensures RollingGap(slot, nonempty, slotsPerEpoch) ==
      EmptySlots(nonempty, Min(StartSlot(slot, slotsPerEpoch), Head(nonempty)), PreviousSlot(slot))
    ensures TrailingGap(slot, nonempty) <= RollingGap(slot, nonempty, slotsPerEpoch)
  {
    var start, head, end := StartSlot(slot, slotsPerEpoch), Head(nonempty), PreviousSlot(slot);
    EmptySlotsSplit(nonempty, Min(start, head), head, end);
  }
}
