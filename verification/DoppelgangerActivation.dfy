/**
 What the steps of doppelganger protection do to a single key, and that protection ends: a key that was stamped two
 epochs ago and is not reported live becomes active, whatever is added in the meantime.
*/
module DoppelgangerActivation {
  import opened Results
  import opened Doppelganger
  import opened DoppelgangerRuns

  // --- One key in one step -----------------------------------------------------------------------

  /** Only additions, the restamping and the activation of a call change a key, and only as stated here. */
  lemma StepByKey(s: State, step: Step, slotsPerEpoch: nat, k: Key)
    requires slotsPerEpoch > 0 && Enabled(s, step, slotsPerEpoch)
    ensures var before, after := s.snapshot, Apply(s, step, slotsPerEpoch).snapshot;
      match step
      case AddUpdate(which) =>
        var (keys, slot) := s.pending[which];
        if slot == 0 then (k in after.active <==> k in before.active || k in keys) && after.tracked == before.tracked
        else
          && after.active == before.active && (k in after.tracked <==> k in before.tracked || k in keys)
          && (k in after.tracked ==>
                after.tracked[k] == if k in before.tracked then before.tracked[k] else Some(slot))
      case DetectRestamp =>
        var Call(_, _, _, _, restamped, removed) := s.phase.call;
        && after.active == before.active
        && (k in after.tracked <==> (k in before.tracked || k in restamped) && k !in removed)
        && (k in after.tracked ==> after.tracked[k] == if k in restamped then restamped[k] else before.tracked[k])
      case ActivateKeys =>
        && (k in after.active <==> k in before.active || k in s.phase.keys)
        && (k in after.tracked <==> k in before.tracked && k !in s.phase.keys)
        && (k in after.tracked ==> after.tracked[k] == before.tracked[k])
      case _ => after == before
  {
  }

  /** What a call that loads a tracked key with the given stamp will do with it. */
  lemma LoadByKey(s: State, slot: Slot, indices: Indices, slotsPerEpoch: nat, k: Key)
    requires slotsPerEpoch > 0 && s.phase.Idle?
    ensures var after := Apply(s, DetectLoad(slot, indices), slotsPerEpoch);
      && after.phase.Loaded? && after.phase.call.slot == slot
      && var Call(_, _, _, checked, restamped, removed) := after.phase.call;
         if k !in s.snapshot.tracked then k !in checked && k !in restamped && k !in removed
         else if k !in indices then k !in checked && k !in restamped && k in removed
         else match (indices[k], s.snapshot.tracked[k]) {
           case (Some(index), Some(_)) => k in checked && checked[k] == index && k !in restamped && k !in removed
           case (Some(index), None) =>
             k in checked && checked[k] == index && k in restamped && restamped[k] == Some(slot) && k !in removed
           case (None, Some(_)) => k !in checked && k in restamped && restamped[k] == None && k !in removed
           case (None, None) => k !in checked && k !in restamped && k !in removed
         }
  {
  }

  /** The keys selected are the checked ones whose stamp is at least two epochs old. */
  lemma SelectByKey(s: State, slotsPerEpoch: nat, k: Key)
    requires slotsPerEpoch > 0 && s.phase.Passed?
    ensures var call, after := s.phase.call, Apply(s, SelectKeys, slotsPerEpoch);
      && (after.phase.Selected? ==> after.phase.call == call)
      && ((after.phase.Selected? && k in after.phase.keys) <==>
            && k in call.checked && k in s.snapshot.tracked && s.snapshot.tracked[k].Some?
            && (s.snapshot.tracked[k].value + 2 * slotsPerEpoch <= call.slot || call.slot >= U64_MAX))
      && (after.phase.Idle? || after.phase.Selected?)
  {
    var keys := ToActivate(s.snapshot.tracked, s.phase.call.checked, s.phase.call.slot, slotsPerEpoch);
    assert keys == {} ==> k !in keys;
  }

  /** The response fails the call: there is none, or it reports a checked key live. */
  ghost predicate Fails(call: Call, response: Option<Liveness>) {
    || response.None?
    || exists i, k :: 0 <= i < |response.value| && k in call.checked && response.value[i] == (call.checked[k], true)
  }

  lemma FailsExactlyWhen(call: Call, response: Option<Liveness>)
    ensures QueryPasses(call, response) <==> !Fails(call, response)
  {
    if response.Some? && ReportsLive(response.value, call.checked.Values) {
      var i :| 0 <= i < |response.value| && response.value[i].1 && response.value[i].0 in call.checked.Values;
      var k :| k in call.checked && call.checked[k] == response.value[i].0;
      assert response.value[i] == (call.checked[k], true);
    }
  }

  /** A call asks about the previous epoch unless it runs in the first one, and then about the current epoch. */
  lemma QueriesOfCall(s: State, response: Option<Liveness>, slotsPerEpoch: nat)
    requires slotsPerEpoch > 0 && s.phase.Querying? && s.phase.call.checked != map[]
    ensures Enabled(s, QueryPrevious(response), slotsPerEpoch) <==>
      s.phase.call.slot >= slotsPerEpoch && s.phase.previous.None?
    ensures Enabled(s, QueryCurrent(response), slotsPerEpoch) <==>
      s.phase.call.slot < slotsPerEpoch || s.phase.previous.Some?
  {
    EpochIsZero(s.phase.call.slot, slotsPerEpoch);
  }

  lemma EpochIsZero(slot: Slot, slotsPerEpoch: nat)
    requires slotsPerEpoch > 0
    ensures Epoch(slot, slotsPerEpoch) == 0 <==> slot < slotsPerEpoch
  {
  }

  // --- A key through one call --------------------------------------------------------------------

  /** A running call will activate the key, unless it fails. */
  ghost predicate WillActivate(s: State, k: Key, stamp: Slot, slotsPerEpoch: nat)
    requires slotsPerEpoch > 0
  {
    && !s.phase.Idle? && k in s.phase.call.checked && k !in s.phase.call.restamped && k !in s.phase.call.removed
    && k in s.snapshot.tracked && s.snapshot.tracked[k] == Some(stamp)
    && stamp + 2 * slotsPerEpoch <= s.phase.call.slot
    && (s.phase.Selected? ==> k in s.phase.keys)
  }

  /** The step makes the call fail: it is dropped, or a response fails it. */
  ghost predicate EndsCall(s: State, step: Step)
    requires !s.phase.Idle?
  {
    match step
    case Drop => true
    case QueryPrevious(response) => Fails(s.phase.call, response)
    case QueryCurrent(response) => Fails(s.phase.call, response)
    case _ => false
  }

  /** No step takes the key off the way but its activation or the failure of the call. */
  lemma WillActivateStep(s: State, step: Step, slotsPerEpoch: nat, k: Key, stamp: Slot)
    requires slotsPerEpoch > 0 && Enabled(s, step, slotsPerEpoch) && WillActivate(s, k, stamp, slotsPerEpoch)
    ensures var after := Apply(s, step, slotsPerEpoch);
      if EndsCall(s, step) then after.phase.Idle?
      else if step.ActivateKeys? then
        after.phase.Idle? && k in after.snapshot.active && k !in after.snapshot.tracked
      else WillActivate(after, k, stamp, slotsPerEpoch)
  {
    StepByKey(s, step, slotsPerEpoch, k);
    match step {
      case QueryPrevious(response) => FailsExactlyWhen(s.phase.call, response);
      case QueryCurrent(response) => FailsExactlyWhen(s.phase.call, response);
      case SelectKeys => SelectByKey(s, slotsPerEpoch, k);
      case _ =>
    }
  }

  /** In every run: a detect call that loads a key stamped at least two epochs before, with its index, either fails or
      ends by making the key active and no longer tracked. */
  lemma {:induction false} CallActivates(
    states: seq<State>, steps: seq<Step>, slotsPerEpoch: nat, m: nat, n: nat, k: Key)
    requires slotsPerEpoch > 0 && IsRun(states, steps, slotsPerEpoch) && m < n <= |steps| && steps[m].DetectLoad?
    requires Resolves(steps[m].indices, k)
    requires k in states[m].snapshot.tracked && states[m].snapshot.tracked[k].Some?
    requires states[m].snapshot.tracked[k].value + 2 * slotsPerEpoch <= steps[m].slot
    requires forall i | m < i < n :: !states[i].phase.Idle?
    ensures states[n].phase.Idle? ==>
      || (m + 1 < n && EndsCall(states[n - 1], steps[n - 1]))
      || (steps[n - 1].ActivateKeys? && k in states[n].snapshot.active && k !in states[n].snapshot.tracked)
    ensures !states[n].phase.Idle? ==>
      WillActivate(states[n], k, states[m].snapshot.tracked[k].value, slotsPerEpoch)
  {
    hide Apply, EndsCall;
    var stamp := states[m].snapshot.tracked[k].value;
    if n == m + 1 {
      LoadWillActivate(states[m], steps[m], slotsPerEpoch, k);
    } else {
      CallActivates(states, steps, slotsPerEpoch, m, n - 1, k);
      WillActivateStep(states[n - 1], steps[n - 1], slotsPerEpoch, k, stamp);
    }
  }

  lemma LoadWillActivate(s: State, step: Step, slotsPerEpoch: nat, k: Key)
    requires slotsPerEpoch > 0 && step.DetectLoad? && Enabled(s, step, slotsPerEpoch) && Resolves(step.indices, k)
    requires Stamped(s, k) && s.snapshot.tracked[k].value + 2 * slotsPerEpoch <= step.slot
    ensures WillActivate(Apply(s, step, slotsPerEpoch), k, s.snapshot.tracked[k].value, slotsPerEpoch)
  {
    LoadByKey(s, step.slot, step.indices, slotsPerEpoch, k);
  }

  /** A call that is on its way to activate a key and does not fail has a next step. */
  lemma CallCanGoOn(s: State, slotsPerEpoch: nat, k: Key, stamp: Slot) returns (step: Step)
    requires slotsPerEpoch > 0 && WillActivate(s, k, stamp, slotsPerEpoch)
    ensures Enabled(s, step, slotsPerEpoch) && !EndsCall(s, step) && !step.AddLoad? && !step.AddUpdate?
  {
    match s.phase {
      case Loaded(_) => step := DetectRestamp;
      case Querying(call, previous) =>
        EpochIsZero(call.slot, slotsPerEpoch);
        if call.slot >= slotsPerEpoch && previous.None? {
          step := QueryPrevious(Some([]));
        } else {
          step := QueryCurrent(Some([]));
        }
      case Passed(_, _, _) => step := SelectKeys;
      case Selected(_, _, _, _) => step := ActivateKeys;
    }
  }

  // --- Additions ---------------------------------------------------------------------------------

  /** In every run: once an addition made at the genesis slot is applied, all its keys are active for good. */
  lemma GenesisAdditionActivates(
    states: seq<State>, steps: seq<Step>, slotsPerEpoch: nat, m: nat, n: nat, k: Key)
    requires slotsPerEpoch > 0 && IsRun(states, steps, slotsPerEpoch) && m < n <= |steps| && steps[m].AddUpdate?
    requires Enabled(states[m], steps[m], slotsPerEpoch)
    requires states[m].pending[steps[m].which].1 == 0 && k in states[m].pending[steps[m].which].0
    ensures k in states[n].snapshot.active
  {
    hide Apply;
    StepByKey(states[m], steps[m], slotsPerEpoch, k);
    ActiveNeverShrinks(states, steps, slotsPerEpoch, m + 1, n);
  }

  /** An addition is pending with exactly the requested keys that are not active yet. */
  lemma AdditionIsPending(s: State, keys: seq<Key>, slot: Slot, slotsPerEpoch: nat)
    requires slotsPerEpoch > 0
    ensures var after := Apply(s, AddLoad(keys, slot), slotsPerEpoch);
      if forall k | k in keys :: k in s.snapshot.active then after == s
      else
        && |after.pending| == |s.pending| + 1 && after.pending[..|s.pending|] == s.pending
        && after.pending[|s.pending|].1 == slot
        && forall k :: k in after.pending[|s.pending|].0 <==> k in keys && k !in s.snapshot.active
  {
    var filtered := Inactive(keys, s.snapshot.active);
    if filtered == [] {
      assert forall k | k in keys :: k !in filtered;
    } else {
      assert filtered[0] in filtered;
    }
  }
}
