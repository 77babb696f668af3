/**
 The attestation verifier: an event loop with three queues (aggregates, single attestations, attestation
 batches), each with its own limit on concurrent verification tasks.

 A lane is one queue with its counter. Next to them a lane records the tasks that still run, the number of
 `Finished` messages not yet handled, and everything received and delivered so far.
*/
module AttestationVerifier {
  import opened Results
  import opened Arithmetic
  import opened Sequences

  const MAX_BATCH_SIZE: nat := 64

  // --- One verification task ---------------------------------------------------------------------

  /** How an item reaches the fork choice: as the result of its prevalidation when that did not accept it,
      as verified by its batch, or on its own after the batch failed. */
  datatype Route = Prevalidated | Verified | Singly

  datatype Delivery<T> = Delivery(item: T, route: Route)

  /** One call into the fork choice. */
  datatype Message<T> = Batch(deliveries: seq<Delivery<T>>) | Singular(delivery: Delivery<T>)

  function Filtered<T>(items: seq<T>, accepts: T -> bool, wanted: bool): seq<T> {
    if items == [] then []
    else (if accepts(items[0]) == wanted then [items[0]] else []) + Filtered(items[1..], accepts, wanted)
  }

  function Routed<T>(items: seq<T>, route: Route): seq<Delivery<T>> {
    seq(|items|, i requires 0 <= i < |items| => Delivery(items[i], route))
  }

  /** What a task delivers: first what prevalidation did not accept, then the accepted items. */
  function Deliveries<T>(items: seq<T>, accepts: T -> bool, signaturesValid: bool): seq<Delivery<T>> {
    Routed(Filtered(items, accepts, false), Prevalidated)
    + Routed(Filtered(items, accepts, true), if signaturesValid then Verified else Singly)
  }

  function Items<T>(deliveries: seq<Delivery<T>>): seq<T> {
    seq(|deliveries|, i requires 0 <= i < |deliveries| => deliveries[i].item)
  }

  function Payload<T>(message: Message<T>): seq<Delivery<T>> {
    match message
    case Batch(deliveries) => deliveries
    case Singular(delivery) => [delivery]
  }

  function Contents<T>(messages: seq<Message<T>>): seq<Delivery<T>> {
    if messages == [] then [] else Payload(messages[0]) + Contents(messages[1..])
  }

  lemma {:induction false} ContentsAppend<T>(messages: seq<Message<T>>, message: Message<T>)
    ensures Contents(messages + [message])
         == Contents(messages) + if message.Batch? then message.deliveries else [message.delivery]
  {
    var all := messages + [message];
    assert Contents(all) == Payload(all[0]) + Contents(all[1..]);
    if messages == [] {
      assert all[1..] == [];
    } else {
      ContentsAppend(messages[1..], message);
      assert all[1..] == messages[1..] + [message];
    }
  }

  lemma {:induction false} FiltersPartition<T>(items: seq<T>, accepts: T -> bool)
    ensures multiset(Filtered(items, accepts, false)) + multiset(Filtered(items, accepts, true)) == multiset(items)
    ensures forall x | x in Filtered(items, accepts, true) :: accepts(x)
    ensures forall x | x in Filtered(items, accepts, false) :: !accepts(x)
  {
    if items != [] {
      FiltersPartition(items[1..], accepts);
      assert items == [items[0]] + items[1..];
    }
  }

  /** Filtering keeps the order: the items are those at certain ascending positions. */
  lemma {:induction false} FilteredInOrder<T>(items: seq<T>, accepts: T -> bool, wanted: bool)
    returns (positions: seq<nat>)
    ensures StrictlyAscending(positions)
    ensures forall k: nat :: k in positions <==> k < |items| && accepts(items[k]) == wanted
    ensures |Filtered(items, accepts, wanted)| == |positions|
    ensures forall i | 0 <= i < |positions| ::
      positions[i] < |items| && Filtered(items, accepts, wanted)[i] == items[positions[i]]
  {
    hide Filtered;
    if items == [] {
      positions := [];
      NoneFiltered(accepts, wanted);
    } else {
      var last := |items| - 1;
      var before := FilteredInOrder(items[..last], accepts, wanted);
      FilteredAppend(items[..last], items[last], accepts, wanted);
      assert items == items[..last] + [items[last]];
      AppendAscends(before, last);
      positions := if accepts(items[last]) == wanted then before + [last] else before;
    }
  }

  lemma NoneFiltered<T>(accepts: T -> bool, wanted: bool)
    ensures Filtered<T>([], accepts, wanted) == []
  {
  }

  lemma {:induction false} FilteredAppend<T>(items: seq<T>, item: T, accepts: T -> bool, wanted: bool)
    ensures Filtered(items + [item], accepts, wanted) ==
      Filtered(items, accepts, wanted) + if accepts(item) == wanted then [item] else []
  {
    if items == [] {
      assert [] + [item] == [item];
    } else {
      FilteredAppend(items[1..], item, accepts, wanted);
      assert (items + [item])[1..] == items[1..] + [item];
    }
  }

  lemma RoutedItems<T>(items: seq<T>, route: Route)
    ensures Items(Routed(items, route)) == items
    ensures forall d | d in Routed(items, route) :: d.route == route && d.item in items
  {
  }

  lemma ItemsAppend<T>(a: seq<Delivery<T>>, b: seq<Delivery<T>>)
    ensures Items(a + b) == Items(a) + Items(b)
  {
  }

  /** A task delivers each of its items exactly once, and each along the route its checks call for. */
  lemma DeliversEachOnce<T>(items: seq<T>, accepts: T -> bool, signaturesValid: bool)
    ensures multiset(Items(Deliveries(items, accepts, signaturesValid))) == multiset(items)
    ensures forall d | d in Deliveries(items, accepts, signaturesValid) ::
              d.route == if !accepts(d.item) then Prevalidated else if signaturesValid then Verified else Singly
  {
    hide Items, Routed, Filtered;
    FiltersPartition(items, accepts);
    var rejected, accepted := Filtered(items, accepts, false), Filtered(items, accepts, true);
    var route := if signaturesValid then Verified else Singly;
    RoutedItems(rejected, Prevalidated);
    RoutedItems(accepted, route);
    ItemsAppend(Routed(rejected, Prevalidated), Routed(accepted, route));
  }

  /** What was not accepted is delivered first. */
  lemma RejectedComeFirst<T>(items: seq<T>, accepts: T -> bool, signaturesValid: bool, i: nat, j: nat)
    requires i < j < |Deliveries(items, accepts, signaturesValid)|
    requires !accepts(Deliveries(items, accepts, signaturesValid)[j].item)
    ensures !accepts(Deliveries(items, accepts, signaturesValid)[i].item)
  {
    hide Filtered;
    FiltersPartition(items, accepts);
    var rejected, accepted := Filtered(items, accepts, false), Filtered(items, accepts, true);
    if j >= |rejected| {
      assert accepted[j - |rejected|] in accepted;
    } else {
      assert rejected[i] in rejected;
    }
  }

  lemma RoutedStep<T>(items: seq<T>, i: nat, route: Route)
    requires i < |items|
    ensures Routed(items[..i + 1], route) == Routed(items[..i], route) + [Delivery(items[i], route)]
  {
  }

  /** `process_aggregate_batch` and `process_attestation_batch`: partition by prevalidation, send what was
      not accepted, verify the rest as one batch, and fall back to single verification if that fails. No
      message is sent for an empty list. */
  method ProcessBatch<T>(items: seq<T>, accepts: T -> bool, signaturesValid: bool) returns (sent: seq<Message<T>>)
    ensures Contents(sent) == Deliveries(items, accepts, signaturesValid)
    ensures |sent| == (if Filtered(items, accepts, false) == [] then 0 else 1)
      + (if !signaturesValid then |Filtered(items, accepts, true)|
         else if Filtered(items, accepts, true) == [] then 0 else 1)
    ensures forall m | m in sent ::
      match m
      case Batch(deliveries) =>
        deliveries != [] && forall d | d in deliveries :: d.route == deliveries[0].route != Singly
      case Singular(delivery) => delivery.route == Singly
  {
    hide Contents, Filtered;
    var accepted, other := Filtered(items, accepts, true), Filtered(items, accepts, false);
    sent := [];
    NoContents<T>();
    if other != [] {
      ContentsAppend([], Batch(Routed(other, Prevalidated)));
      sent := sent + [Batch(Routed(other, Prevalidated))];
    }
    ghost var before := sent;
    assert Contents(sent) == Routed(other, Prevalidated);
    if signaturesValid {
      if accepted != [] {
        ContentsAppend(sent, Batch(Routed(accepted, Verified)));
        sent := sent + [Batch(Routed(accepted, Verified))];
      }
      return;
    }
    sent := SendSingly(sent, accepted);
    forall m | m in sent ensures m in before || (m.Singular? && m.delivery.route == Singly) {
      var i :| 0 <= i < |sent| && sent[i] == m;
      assert i < |before| ==> before[i] == m;
      assert i >= |before| ==> m == Singular(Delivery(accepted[i - |before|], Singly));
    }
  }

  lemma NoContents<T>()
    ensures Contents<T>([]) == []
  {
  }

  method SendSingly<T>(before: seq<Message<T>>, items: seq<T>) returns (sent: seq<Message<T>>)
    ensures Contents(sent) == Contents(before) + Routed(items, Singly)
    ensures |sent| == |before| + |items| && before == sent[..|before|]
    ensures forall i | 0 <= i < |items| :: sent[|before| + i] == Singular(Delivery(items[i], Singly))
  {
    hide Contents, Routed;
    sent := before;
    RoutedItems(items[..0], Singly);
    assert Routed(items[..0], Singly) == [] by {
      assert |Items(Routed(items[..0], Singly))| == 0;
    }
    for i := 0 to |items|
      invariant Contents(sent) == Contents(before) + Routed(items[..i], Singly)
      invariant |sent| == |before| + i && before == sent[..|before|]
      invariant forall j | 0 <= j < i :: sent[|before| + j] == Singular(Delivery(items[j], Singly))
    {
      var message := Singular(Delivery(items[i], Singly));
      ContentsAppend(sent, message);
      RoutedStep(items, i, Singly);
      sent := sent + [message];
    }
    assert items[..|items|] == items;
  }

  // --- One lane ----------------------------------------------------------------------------------

  datatype Lane<T> = Lane(
    queue: seq<T>, active: nat,
    running: seq<seq<T>>, finished: nat, received: seq<T>, delivered: seq<Delivery<T>>)

  /** The bounds of a lane: how many tasks may be active, and how many items a task may take. */
  datatype Limits = Limits(maxActive: nat, maxBatch: Option<nat>)

  function NewLane<T>(): Lane<T> {
    Lane([], 0, [], 0, [], [])
  }

  function SplitAt(limits: Limits, length: nat): nat {
    if limits.maxBatch.Some? then SaturatingSub(length, limits.maxBatch.value) else 0
  }

  /** The `spawn_verify_*` methods: take a batch off the end of the queue if a task may start. */
  function Spawn<T>(lane: Lane<T>, limits: Limits): Lane<T> {
    if lane.active >= limits.maxActive || lane.queue == [] then lane
    else
      var split := SplitAt(limits, |lane.queue|);
      lane.(active := lane.active + 1, queue := lane.queue[..split], running := lane.running + [lane.queue[split..]])
  }

  function Receive<T>(lane: Lane<T>, items: seq<T>, limits: Limits): Lane<T> {
    Spawn(lane.(queue := lane.queue + items, received := lane.received + items), limits)
  }

  /** A running task finishes its work and sends its `Finished` message. */
  function Finish<T>(lane: Lane<T>, which: nat, accepts: T -> bool, signaturesValid: bool): Lane<T>
    requires which < |lane.running|
  {
    lane.(running := lane.running[..which] + lane.running[which + 1..],
          finished := lane.finished + 1,
          delivered := lane.delivered + Deliveries(lane.running[which], accepts, signaturesValid))
  }

  /** The verifier handles a `Finished` message. */
  function Acknowledge<T>(lane: Lane<T>, limits: Limits): Lane<T>
    requires lane.finished > 0
  {
    Spawn(lane.(finished := lane.finished - 1, active := SaturatingSub(lane.active, 1)), limits)
  }

  function InFlight<T>(running: seq<seq<T>>): multiset<T> {
    if running == [] then multiset{} else multiset(running[0]) + InFlight(running[1..])
  }

  /** Every received item is queued, in one running task, or delivered, and nothing else is. */
  ghost predicate Conserves<T>(lane: Lane<T>) {
    multiset(lane.received) == multiset(lane.queue) + InFlight(lane.running) + multiset(Items(lane.delivered))
  }

  ghost predicate Scheduled<T>(lane: Lane<T>, limits: Limits) {
    && lane.active == |lane.running| + lane.finished <= limits.maxActive
    && (lane.queue != [] ==> lane.active == limits.maxActive)
    && (forall batch | batch in lane.running ::
          batch != [] && (limits.maxBatch.Some? ==> |batch| <= limits.maxBatch.value))
  }

  ghost predicate LaneInv<T>(lane: Lane<T>, limits: Limits) {
    Conserves(lane) && Scheduled(lane, limits)
  }

  lemma {:induction false} InFlightAppend<T>(running: seq<seq<T>>, batch: seq<T>)
    ensures InFlight(running + [batch]) == InFlight(running) + multiset(batch)
  {
    if running == [] {
      assert [] + [batch] == [batch];
    } else {
      InFlightAppend(running[1..], batch);
      assert (running + [batch])[1..] == running[1..] + [batch];
    }
  }

  lemma {:induction false} InFlightRemove<T>(running: seq<seq<T>>, which: nat)
    requires which < |running|
    ensures InFlight(running) == InFlight(running[..which] + running[which + 1..]) + multiset(running[which])
  {
    if which == 0 {
      assert running[..0] + running[1..] == running[1..];
    } else {
      InFlightRemove(running[1..], which - 1);
      var rest := running[..which] + running[which + 1..];
      assert rest[1..] == running[1..][..which - 1] + running[1..][which..];
    }
  }

  lemma SplitKeepsItems<T>(queue: seq<T>, split: nat)
    requires split <= |queue|
    ensures multiset(queue[..split]) + multiset(queue[split..]) == multiset(queue)
  {
    assert queue == queue[..split] + queue[split..];
  }

  lemma SpawnConserves<T>(lane: Lane<T>, limits: Limits)
    requires Conserves(lane)
    ensures Conserves(Spawn(lane, limits))
  {
    hide InFlight, Items, SplitAt;
    SplitIsWithin(limits, |lane.queue|);
    var split := SplitAt(limits, |lane.queue|);
    InFlightAppend(lane.running, lane.queue[split..]);
    SplitKeepsItems(lane.queue, split);
  }

  /** A task starts exactly when one may start and there is work. It takes a full batch, or all there is, off the end
      of the queue; the rest stays in order. */
  lemma SpawnTakesLast<T>(lane: Lane<T>, limits: Limits)
    ensures var after := Spawn(lane, limits);
      && after.finished == lane.finished && after.received == lane.received && after.delivered == lane.delivered
      && if lane.active < limits.maxActive && |lane.queue| > 0 then
           && after.active == lane.active + 1
           && |after.running| == |lane.running| + 1 && after.running[..|lane.running|] == lane.running
           && after.queue + after.running[|lane.running|] == lane.queue
           && |after.running[|lane.running|]| ==
              if limits.maxBatch.Some? then Min(limits.maxBatch.value, |lane.queue|) else |lane.queue|
         else after == lane
  {
  }

  /** A task that finishes leaves the others running, in order, and its deliveries at the end of the log. */
  lemma FinishMoves<T>(lane: Lane<T>, which: nat, accepts: T -> bool, signaturesValid: bool)
    requires which < |lane.running|
    ensures var after := Finish(lane, which, accepts, signaturesValid);
      && after.queue == lane.queue && after.active == lane.active && after.received == lane.received
      && after.finished == lane.finished + 1 && |after.running| == |lane.running| - 1
      && (forall i | 0 <= i < |after.running| :: after.running[i] == lane.running[if i < which then i else i + 1])
      && lane.delivered <= after.delivered
      && multiset(Items(after.delivered[|lane.delivered|..])) == multiset(lane.running[which])
      && forall d | d in after.delivered[|lane.delivered|..] ::
           d.route == if !accepts(d.item) then Prevalidated else if signaturesValid then Verified else Singly
  {
    hide Deliveries, Items;
    var delivered := Deliveries(lane.running[which], accepts, signaturesValid);
    DeliversEachOnce(lane.running[which], accepts, signaturesValid);
    assert (lane.delivered + delivered)[|lane.delivered|..] == delivered;
  }

  /** Items are received at the end of the queue. */
  lemma ReceiveAppends<T>(lane: Lane<T>, items: seq<T>, limits: Limits)
    ensures var after := Receive(lane, items, limits);
      && after.received == lane.received + items && after.finished == lane.finished && after.delivered == lane.delivered
      && (after.running == lane.running ==> after.queue == lane.queue + items)
      && (after.running != lane.running ==>
            && |after.running| == |lane.running| + 1 && after.running[..|lane.running|] == lane.running
            && after.queue + after.running[|lane.running|] == lane.queue + items)
  {
    SpawnTakesLast(lane.(queue := lane.queue + items, received := lane.received + items), limits);
  }

  lemma SplitIsWithin(limits: Limits, length: nat)
    ensures SplitAt(limits, length) <= length
  {
  }

  /** Spawning after the counter and the queue have changed restores the schedule. */
  lemma SpawnSchedules<T>(lane: Lane<T>, limits: Limits)
    requires limits.maxActive > 0 && (limits.maxBatch.Some? ==> limits.maxBatch.value > 0)
    requires lane.active == |lane.running| + lane.finished <= limits.maxActive
    requires forall batch | batch in lane.running ::
               batch != [] && (limits.maxBatch.Some? ==> |batch| <= limits.maxBatch.value)
    requires lane.queue == [] || lane.active + 1 >= limits.maxActive
             || SplitAt(limits, |lane.queue|) == 0
    ensures Scheduled(Spawn(lane, limits), limits)
  {
  }

  lemma ReceiveKeepsInv<T>(lane: Lane<T>, items: seq<T>, limits: Limits)
    requires limits.maxActive > 0 && (limits.maxBatch.Some? ==> limits.maxBatch.value > 0 && |items| == 1)
    requires LaneInv(lane, limits)
    ensures LaneInv(Receive(lane, items, limits), limits)
  {
    hide Spawn, InFlight;
    var pushed := lane.(queue := lane.queue + items, received := lane.received + items);
    SpawnConserves(pushed, limits);
    SpawnSchedules(pushed, limits);
  }

  lemma FinishKeepsInv<T>(lane: Lane<T>, which: nat, accepts: T -> bool, signaturesValid: bool, limits: Limits)
    requires LaneInv(lane, limits) && which < |lane.running|
    ensures LaneInv(Finish(lane, which, accepts, signaturesValid), limits)
  {
    hide Deliveries, InFlight;
    InFlightRemove(lane.running, which);
    DeliversEachOnce(lane.running[which], accepts, signaturesValid);
    ItemsAppend(lane.delivered, Deliveries(lane.running[which], accepts, signaturesValid));
  }

  lemma AcknowledgeKeepsInv<T>(lane: Lane<T>, limits: Limits)
    requires limits.maxActive > 0 && (limits.maxBatch.Some? ==> limits.maxBatch.value > 0)
    requires LaneInv(lane, limits) && lane.finished > 0
    ensures lane.active > 0
    ensures LaneInv(Acknowledge(lane, limits), limits)
  {
    hide Spawn, InFlight;
    var acknowledged := lane.(finished := lane.finished - 1, active := SaturatingSub(lane.active, 1));
    SpawnConserves(acknowledged, limits);
    SpawnSchedules(acknowledged, limits);
  }

  // --- Draining ----------------------------------------------------------------------------------

  /** Once nothing more is received, every step of a lane lowers this. */
  function Outstanding<T>(lane: Lane<T>): nat {
    3 * |lane.queue| + 2 * |lane.running| + lane.finished
  }

  /** Handling a `Finished` message shortens a non-empty queue by a full batch, or empties it. */
  lemma AcknowledgeShortensQueue<T>(lane: Lane<T>, limits: Limits)
    requires limits.maxActive > 0 && (limits.maxBatch.Some? ==> limits.maxBatch.value > 0)
    requires LaneInv(lane, limits) && lane.finished > 0
    ensures |Acknowledge(lane, limits).queue| == SplitAt(limits, |lane.queue|)
  {
  }

  // --- Runs of a lane ----------------------------------------------------------------------------

  datatype LaneStep<!T> =
    | Receiving(items: seq<T>)
    | Finishing(which: nat, accepts: T -> bool, signaturesValid: bool)
    | Acknowledging

  /** Items come one at a time, except in the lane that takes its whole queue as one batch. */
  predicate LaneEnabled<T>(lane: Lane<T>, step: LaneStep<T>, limits: Limits) {
    match step
    case Receiving(items) => limits.maxBatch.Some? ==> |items| == 1
    case Finishing(which, _, _) => which < |lane.running|
    case Acknowledging => lane.finished > 0
  }

  function LaneApply<T>(lane: Lane<T>, step: LaneStep<T>, limits: Limits): Lane<T>
    requires LaneEnabled(lane, step, limits)
  {
    match step
    case Receiving(items) => Receive(lane, items, limits)
    case Finishing(which, accepts, valid) => Finish(lane, which, accepts, valid)
    case Acknowledging => Acknowledge(lane, limits)
  }

  predicate ValidLimits(limits: Limits) {
    limits.maxActive > 0 && (limits.maxBatch.Some? ==> limits.maxBatch.value > 0)
  }

  ghost predicate IsLaneRun<T>(lanes: seq<Lane<T>>, steps: seq<LaneStep<T>>, limits: Limits) {
    && |lanes| == |steps| + 1
    && forall i | 0 <= i < |steps| ::
         LaneEnabled(lanes[i], steps[i], limits) && lanes[i + 1] == LaneApply(lanes[i], steps[i], limits)
  }

  lemma LaneStepKeepsInv<T>(lane: Lane<T>, step: LaneStep<T>, limits: Limits)
    requires ValidLimits(limits) && LaneInv(lane, limits) && LaneEnabled(lane, step, limits)
    ensures LaneInv(LaneApply(lane, step, limits), limits)
  {
    hide LaneInv, Receive, Finish, Acknowledge;
    match step
    case Receiving(items) => ReceiveKeepsInv(lane, items, limits);
    case Finishing(which, accepts, valid) => FinishKeepsInv(lane, which, accepts, valid, limits);
    case Acknowledging => AcknowledgeKeepsInv(lane, limits);
  }

  /** In every run, nothing is lost or duplicated, the counter is exact and within its limit, batches are
      bounded, and items only wait while every task slot is taken. */
  lemma {:induction false} LaneRunsKeepInv<T>(lanes: seq<Lane<T>>, steps: seq<LaneStep<T>>, limits: Limits, n: nat)
    requires ValidLimits(limits) && IsLaneRun(lanes, steps, limits) && LaneInv(lanes[0], limits) && n < |lanes|
    ensures LaneInv(lanes[n], limits)
  {
    if n > 0 {
      LaneRunsKeepInv(lanes, steps, limits, n - 1);
      LaneStepKeepsInv(lanes[n - 1], steps[n - 1], limits);
    }
  }

  lemma StepLowersOutstanding<T>(lane: Lane<T>, step: LaneStep<T>, limits: Limits)
    requires ValidLimits(limits) && LaneInv(lane, limits) && LaneEnabled(lane, step, limits) && !step.Receiving?
    ensures Outstanding(LaneApply(lane, step, limits)) < Outstanding(lane)
  {
  }

  /** Once input stops, a run is no longer than the work that was outstanding. */
  lemma {:induction false} LaneDrains<T>(lanes: seq<Lane<T>>, steps: seq<LaneStep<T>>, limits: Limits, n: nat)
    requires ValidLimits(limits) && IsLaneRun(lanes, steps, limits) && LaneInv(lanes[0], limits) && n <= |steps|
    requires forall i | 0 <= i < |steps| :: !steps[i].Receiving?
    ensures n + Outstanding(lanes[n]) <= Outstanding(lanes[0])
  {
    hide LaneInv, LaneApply, Outstanding;
    if n > 0 {
      LaneDrains(lanes, steps, limits, n - 1);
      LaneRunsKeepInv(lanes, steps, limits, n - 1);
      StepLowersOutstanding(lanes[n - 1], steps[n - 1], limits);
    }
  }

  /** A lane that can do nothing more has delivered every received item exactly once. */
  lemma StuckMeansDelivered<T>(lane: Lane<T>, limits: Limits)
    requires ValidLimits(limits) && LaneInv(lane, limits)
    requires forall step: LaneStep<T> | !step.Receiving? :: !LaneEnabled(lane, step, limits)
    ensures lane.queue == [] && multiset(Items(lane.delivered)) == multiset(lane.received)
  {
    assert !LaneEnabled(lane, Acknowledging, limits);
    assert !LaneEnabled(lane, Finishing(0, _ => true, true), limits);
  }

  // --- The verifier ------------------------------------------------------------------------------

  /** A lane of single items runs one task at a time, on the last 64 items or all there are; the lane of batches runs
      one task on everything. */
  lemma BatchesOfLanes<T>(lane: Lane<T>)
    requires lane.active == 0 && lane.queue != []
    ensures var after := Spawn(lane, SINGLE_ITEM_LIMITS);
      && after.active == 1 && |after.running| == |lane.running| + 1
      && after.queue + after.running[|lane.running|] == lane.queue
      && |after.running[|lane.running|]| == if |lane.queue| >= 64 then 64 else |lane.queue|
    ensures var after := Spawn(lane, BATCH_LIMITS);
      after.active == 1 && after.queue == [] && after.running == lane.running + [lane.queue]
    ensures forall busy: Lane<T> | busy.active >= 1 ::
      Spawn(busy, SINGLE_ITEM_LIMITS) == busy && Spawn(busy, BATCH_LIMITS) == busy
  {
    SpawnTakesLast(lane, SINGLE_ITEM_LIMITS);
    SpawnTakesLast(lane, BATCH_LIMITS);
  }

  const SINGLE_ITEM_LIMITS: Limits := Limits(1, Some(MAX_BATCH_SIZE))
  const BATCH_LIMITS: Limits := Limits(1, None)

  /** The event loop. Its queues and counters are those of the source; the lanes next to them also record
      the tasks that were spawned and what became of their items. */
  class Verifier<A, G> {
    var attestations: seq<A>
    var batchAttestations: seq<A>
    var aggregates: seq<G>
    var activeAggregatesTaskCount: nat
    var activeAttestationsTaskCount: nat
    var activeBatchAttestationsTaskCount: nat
    var stopped: bool
    ghost var aggregatesLane: Lane<G>
    ghost var attestationsLane: Lane<A>
    ghost var batchAttestationsLane: Lane<A>

    ghost predicate Valid()
      reads this
    {
      && aggregatesLane.queue == aggregates && aggregatesLane.active == activeAggregatesTaskCount
      && attestationsLane.queue == attestations && attestationsLane.active == activeAttestationsTaskCount
      && batchAttestationsLane.queue == batchAttestations
      && batchAttestationsLane.active == activeBatchAttestationsTaskCount
      && LaneInv(aggregatesLane, SINGLE_ITEM_LIMITS)
      && LaneInv(attestationsLane, SINGLE_ITEM_LIMITS)
      && LaneInv(batchAttestationsLane, BATCH_LIMITS)
    }

    constructor ()
      ensures Valid() && !stopped
      ensures aggregatesLane == NewLane() && attestationsLane == NewLane() && batchAttestationsLane == NewLane()
    {
      attestations, batchAttestations, aggregates := [], [], [];
      activeAggregatesTaskCount, activeAttestationsTaskCount, activeBatchAttestationsTaskCount := 0, 0, 0;
      stopped := false;
      aggregatesLane, attestationsLane, batchAttestationsLane := NewLane(), NewLane(), NewLane();
    }

    method OnAggregate(aggregate: G)
      requires Valid() && !stopped
      modifies this`aggregates, this`activeAggregatesTaskCount, this`aggregatesLane
      ensures Valid() && aggregatesLane == Receive(old(aggregatesLane), [aggregate], SINGLE_ITEM_LIMITS)
    {
      hide LaneInv;
      ReceiveKeepsInv(aggregatesLane, [aggregate], SINGLE_ITEM_LIMITS);
      aggregates := aggregates + [aggregate];
      aggregatesLane := aggregatesLane.(queue := aggregates, received := aggregatesLane.received + [aggregate]);
      SpawnVerifyAggregateBatchTask();
    }

    method OnAttestation(attestation: A)
      requires Valid() && !stopped
      modifies this`attestations, this`activeAttestationsTaskCount, this`attestationsLane
      ensures Valid() && attestationsLane == Receive(old(attestationsLane), [attestation], SINGLE_ITEM_LIMITS)
    {
      hide LaneInv;
      ReceiveKeepsInv(attestationsLane, [attestation], SINGLE_ITEM_LIMITS);
      attestations := attestations + [attestation];
      attestationsLane :=
        attestationsLane.(queue := attestations, received := attestationsLane.received + [attestation]);
      SpawnVerifyAttestationBatchTask();
    }

    method OnAttestationBatch(batch: seq<A>)
      requires Valid() && !stopped
      modifies this`batchAttestations, this`activeBatchAttestationsTaskCount, this`batchAttestationsLane
      ensures Valid() && batchAttestationsLane == Receive(old(batchAttestationsLane), batch, BATCH_LIMITS)
    {
      hide LaneInv;
      ReceiveKeepsInv(batchAttestationsLane, batch, BATCH_LIMITS);
      batchAttestations := batchAttestations + batch;
      batchAttestationsLane :=
        batchAttestationsLane.(queue := batchAttestations, received := batchAttestationsLane.received + batch);
      SpawnVerifyBatchAttestationTask();
    }

    method OnAggregatesTaskFinished()
      requires Valid() && !stopped && aggregatesLane.finished > 0
      modifies this`aggregates, this`activeAggregatesTaskCount, this`aggregatesLane
      ensures Valid() && aggregatesLane == Acknowledge(old(aggregatesLane), SINGLE_ITEM_LIMITS)
    {
      hide LaneInv;
      AcknowledgeKeepsInv(aggregatesLane, SINGLE_ITEM_LIMITS);
      activeAggregatesTaskCount := SaturatingSub(activeAggregatesTaskCount, 1);
      aggregatesLane := aggregatesLane.(finished := aggregatesLane.finished - 1, active := activeAggregatesTaskCount);
      SpawnVerifyAggregateBatchTask();
    }

    method OnAttestationsTaskFinished()
      requires Valid() && !stopped && attestationsLane.finished > 0
      modifies this`attestations, this`activeAttestationsTaskCount, this`attestationsLane
      ensures Valid() && attestationsLane == Acknowledge(old(attestationsLane), SINGLE_ITEM_LIMITS)
    {
      hide LaneInv;
      AcknowledgeKeepsInv(attestationsLane, SINGLE_ITEM_LIMITS);
      activeAttestationsTaskCount := SaturatingSub(activeAttestationsTaskCount, 1);
      attestationsLane :=
        attestationsLane.(finished := attestationsLane.finished - 1, active := activeAttestationsTaskCount);
      SpawnVerifyAttestationBatchTask();
    }

    method OnBatchAttestationsTaskFinished()
      requires Valid() && !stopped && batchAttestationsLane.finished > 0
      modifies this`batchAttestations, this`activeBatchAttestationsTaskCount, this`batchAttestationsLane
      ensures Valid() && batchAttestationsLane == Acknowledge(old(batchAttestationsLane), BATCH_LIMITS)
    {
      hide LaneInv;
      AcknowledgeKeepsInv(batchAttestationsLane, BATCH_LIMITS);
      activeBatchAttestationsTaskCount := SaturatingSub(activeBatchAttestationsTaskCount, 1);
      batchAttestationsLane := batchAttestationsLane.(
        finished := batchAttestationsLane.finished - 1, active := activeBatchAttestationsTaskCount);
      SpawnVerifyBatchAttestationTask();
    }

    /** One of the running aggregate tasks processes its batch. */
    method RunAggregatesTask(batch: seq<G>, ghost which: nat, accepts: G -> bool, signaturesValid: bool)
      returns (sent: seq<Message<G>>)
      requires Valid() && which < |aggregatesLane.running| && aggregatesLane.running[which] == batch
      modifies this`aggregatesLane
      ensures Valid() && aggregatesLane == Finish(old(aggregatesLane), which, accepts, signaturesValid)
      ensures aggregatesLane.delivered == old(aggregatesLane.delivered) + Contents(sent)
      ensures |sent| == (if Filtered(batch, accepts, false) == [] then 0 else 1)
        + (if !signaturesValid then |Filtered(batch, accepts, true)|
           else if Filtered(batch, accepts, true) == [] then 0 else 1)
      ensures forall m | m in sent ::
        match m
        case Batch(deliveries) =>
          deliveries != [] && forall d | d in deliveries :: d.route == deliveries[0].route != Singly
        case Singular(delivery) => delivery.route == Singly
    {
      hide LaneInv, Deliveries, Contents;
      FinishKeepsInv(aggregatesLane, which, accepts, signaturesValid, SINGLE_ITEM_LIMITS);
      sent := ProcessBatch(batch, accepts, signaturesValid);
      aggregatesLane := Finish(aggregatesLane, which, accepts, signaturesValid);
    }

    /** One of the running attestation tasks processes its batch. */
    method RunAttestationsTask(batch: seq<A>, ghost which: nat, accepts: A -> bool, signaturesValid: bool)
      returns (sent: seq<Message<A>>)
      requires Valid() && which < |attestationsLane.running| && attestationsLane.running[which] == batch
      modifies this`attestationsLane
      ensures Valid() && attestationsLane == Finish(old(attestationsLane), which, accepts, signaturesValid)
      ensures attestationsLane.delivered == old(attestationsLane.delivered) + Contents(sent)
      ensures |sent| == (if Filtered(batch, accepts, false) == [] then 0 else 1)
        + (if !signaturesValid then |Filtered(batch, accepts, true)|
           else if Filtered(batch, accepts, true) == [] then 0 else 1)
      ensures forall m | m in sent ::
        match m
        case Batch(deliveries) =>
          deliveries != [] && forall d | d in deliveries :: d.route == deliveries[0].route != Singly
        case Singular(delivery) => delivery.route == Singly
    {
      hide LaneInv, Deliveries, Contents;
      FinishKeepsInv(attestationsLane, which, accepts, signaturesValid, SINGLE_ITEM_LIMITS);
      sent := ProcessBatch(batch, accepts, signaturesValid);
      attestationsLane := Finish(attestationsLane, which, accepts, signaturesValid);
    }

    /** One of the running batch attestation tasks processes its batch. */
    method RunBatchAttestationsTask(batch: seq<A>, ghost which: nat, accepts: A -> bool, signaturesValid: bool)
      returns (sent: seq<Message<A>>)
      requires Valid() && which < |batchAttestationsLane.running| && batchAttestationsLane.running[which] == batch
      modifies this`batchAttestationsLane
      ensures Valid() && batchAttestationsLane == Finish(old(batchAttestationsLane), which, accepts, signaturesValid)
      ensures batchAttestationsLane.delivered == old(batchAttestationsLane.delivered) + Contents(sent)
      ensures |sent| == (if Filtered(batch, accepts, false) == [] then 0 else 1)
        + (if !signaturesValid then |Filtered(batch, accepts, true)|
           else if Filtered(batch, accepts, true) == [] then 0 else 1)
      ensures forall m | m in sent ::
        match m
        case Batch(deliveries) =>
          deliveries != [] && forall d | d in deliveries :: d.route == deliveries[0].route != Singly
        case Singular(delivery) => delivery.route == Singly
    {
      hide LaneInv, Deliveries, Contents;
      FinishKeepsInv(batchAttestationsLane, which, accepts, signaturesValid, BATCH_LIMITS);
      sent := ProcessBatch(batch, accepts, signaturesValid);
      batchAttestationsLane := Finish(batchAttestationsLane, which, accepts, signaturesValid);
    }

    method OnStop()
      requires Valid() && !stopped
      modifies this`stopped
      ensures Valid() && stopped
    {
      stopped := true;
    }

    method SpawnVerifyAggregateBatchTask()
      requires aggregatesLane.queue == aggregates && aggregatesLane.active == activeAggregatesTaskCount
      modifies this`aggregates, this`activeAggregatesTaskCount, this`aggregatesLane
      ensures aggregatesLane == Spawn(old(aggregatesLane), SINGLE_ITEM_LIMITS)
      ensures aggregatesLane.queue == aggregates && aggregatesLane.active == activeAggregatesTaskCount
    {
      if activeAggregatesTaskCount >= SINGLE_ITEM_LIMITS.maxActive || |aggregates| == 0 {
        return;
      }
      activeAggregatesTaskCount := activeAggregatesTaskCount + 1;
      var splitAt := SaturatingSub(|aggregates|, MAX_BATCH_SIZE);
      var batch := aggregates[splitAt..];
      aggregates := aggregates[..splitAt];
      aggregatesLane := aggregatesLane.(
        queue := aggregates, active := activeAggregatesTaskCount, running := aggregatesLane.running + [batch]);
    }

    method SpawnVerifyAttestationBatchTask()
      requires attestationsLane.queue == attestations && attestationsLane.active == activeAttestationsTaskCount
      modifies this`attestations, this`activeAttestationsTaskCount, this`attestationsLane
      ensures attestationsLane == Spawn(old(attestationsLane), SINGLE_ITEM_LIMITS)
      ensures attestationsLane.queue == attestations && attestationsLane.active == activeAttestationsTaskCount
    {
      if activeAttestationsTaskCount >= SINGLE_ITEM_LIMITS.maxActive || |attestations| == 0 {
        return;
      }
      activeAttestationsTaskCount := activeAttestationsTaskCount + 1;
      var splitAt := SaturatingSub(|attestations|, MAX_BATCH_SIZE);
      var batch := attestations[splitAt..];
      attestations := attestations[..splitAt];
      attestationsLane := attestationsLane.(
        queue := attestations, active := activeAttestationsTaskCount, running := attestationsLane.running + [batch]);
    }

    method SpawnVerifyBatchAttestationTask()
      requires batchAttestationsLane.queue == batchAttestations
      requires batchAttestationsLane.active == activeBatchAttestationsTaskCount
      modifies this`batchAttestations, this`activeBatchAttestationsTaskCount, this`batchAttestationsLane
      ensures batchAttestationsLane == Spawn(old(batchAttestationsLane), BATCH_LIMITS)
      ensures batchAttestationsLane.queue == batchAttestations
      ensures batchAttestationsLane.active == activeBatchAttestationsTaskCount
    {
      if activeBatchAttestationsTaskCount >= BATCH_LIMITS.maxActive || |batchAttestations| == 0 {
        return;
      }
      activeBatchAttestationsTaskCount := activeBatchAttestationsTaskCount + 1;
      var batch := batchAttestations;
      batchAttestations := [];
      batchAttestationsLane := batchAttestationsLane.(
        queue := [], active := activeBatchAttestationsTaskCount, running := batchAttestationsLane.running + [batch]);
      assert old(batchAttestations)[..0] == [] && old(batchAttestations)[0..] == batch;
    }
  }
}
