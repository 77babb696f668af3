/**
 Runs of doppelganger protection, told by their steps alone: what becomes of an addition, and for every active key the
 steps that made it active. Nothing here rests on what the states record about the past.
*/
module DoppelgangerHistory {
  import opened Results
  import opened Doppelganger
  import opened DoppelgangerRuns
  import opened DoppelgangerActivation

  // --- Additions between their load and their update ---------------------------------------------

  /** Loading an addition appends at most one entry to the pending ones, applying one removes exactly that one, and
      nothing else touches them. */
  lemma PendingByStep(s: State, step: Step, slotsPerEpoch: nat)
    requires slotsPerEpoch > 0 && Enabled(s, step, slotsPerEpoch)
    ensures var before, after := s.pending, Apply(s, step, slotsPerEpoch).pending;
      match step
      case AddLoad(_, _) =>
        |before| <= |after| <= |before| + 1 && forall i | 0 <= i < |before| :: after[i] == before[i]
      case AddUpdate(which) =>
        && which < |before| && |after| == |before| - 1
        && forall i | 0 <= i < |after| :: after[i] == before[if i < which then i else i + 1]
      case _ => after == before
  {
  }

  /** What loading adds to the pending additions. */
  ghost function LoadedBy(before: State, after: State): seq<(seq<Key>, Slot)> {
    if |after.pending| > |before.pending| then after.pending[|before.pending|..] else []
  }

  /** The addition that a step applies. */
  ghost function AppliedBy(s: State, step: Step): seq<(seq<Key>, Slot)> {
    if step.AddUpdate? && step.which < |s.pending| then [s.pending[step.which]] else []
  }

  ghost function AllLoaded(states: seq<State>): seq<(seq<Key>, Slot)> {
    if |states| <= 1 then [] else
      var n := |states| - 1;
      AllLoaded(states[..n]) + LoadedBy(states[n - 1], states[n])
  }

  ghost function AllApplied(states: seq<State>, steps: seq<Step>): seq<(seq<Key>, Slot)>
    requires |states| == |steps| + 1
  {
    if steps == [] then [] else
      var n := |steps| - 1;
      AllApplied(states[..n + 1], steps[..n]) + AppliedBy(states[n], steps[n])
  }

  /** In every run: what was loaded is what was applied together with what is still pending, each as often. So an
      addition is applied at most as often as it was loaded, and none is lost. */
  lemma {:induction false} AdditionsAreConserved(states: seq<State>, steps: seq<Step>, slotsPerEpoch: nat)
    requires slotsPerEpoch > 0 && IsRun(states, steps, slotsPerEpoch)
    ensures multiset(AllLoaded(states)) == multiset(AllApplied(states, steps)) + multiset(states[|steps|].pending)
  {
    hide Apply, Enabled, IsRun, LoadedBy, AppliedBy, AllLoaded, AllApplied;
    RunUpTo(states, steps, slotsPerEpoch);
    HistoryStep(states, steps);
    if steps != [] {
      var n := |steps| - 1;
      AdditionsAreConserved(states[..n + 1], steps[..n], slotsPerEpoch);
      StepConserves(states[n], steps[n], slotsPerEpoch);
      assert states[..n + 1][n] == states[n];
      Balance(AllLoaded(states[..n + 1]), LoadedBy(states[n], states[n + 1]),
              AllApplied(states[..n + 1], steps[..n]), AppliedBy(states[n], steps[n]),
              states[n].pending, states[n + 1].pending);
    }
  }

  lemma Balance<T>(loaded: seq<T>, load: seq<T>, applied: seq<T>, apply: seq<T>, before: seq<T>, after: seq<T>)
    requires multiset(loaded) == multiset(applied) + multiset(before)
    requires multiset(before) + multiset(load) == multiset(after) + multiset(apply)
    ensures multiset(loaded + load) == multiset(applied + apply) + multiset(after)
  {
    assert multiset(loaded + load) == multiset(applied) + (multiset(before) + multiset(load));
  }

  lemma {:induction false} RunUpTo(states: seq<State>, steps: seq<Step>, slotsPerEpoch: nat)
    requires slotsPerEpoch > 0 && IsRun(states, steps, slotsPerEpoch)
    ensures |states| == |steps| + 1 && (steps == [] ==> states[0].pending == [])
    ensures steps != [] ==>
      var n := |steps| - 1;
      && IsRun(states[..n + 1], steps[..n], slotsPerEpoch)
      && Enabled(states[n], steps[n], slotsPerEpoch) && states[n + 1] == Apply(states[n], steps[n], slotsPerEpoch)
  {
    hide Apply, Enabled;
  }

  lemma {:induction false} HistoryStep(states: seq<State>, steps: seq<Step>)
    requires |states| == |steps| + 1
    ensures steps == [] ==> AllLoaded(states) == [] && AllApplied(states, steps) == []
    ensures steps != [] ==>
      var n := |steps| - 1;
      && AllLoaded(states) == AllLoaded(states[..n + 1]) + LoadedBy(states[n], states[n + 1])
      && AllApplied(states, steps) == AllApplied(states[..n + 1], steps[..n]) + AppliedBy(states[n], steps[n])
  {
    hide LoadedBy, AppliedBy;
  }

  lemma StepConserves(s: State, step: Step, slotsPerEpoch: nat)
    requires slotsPerEpoch > 0 && Enabled(s, step, slotsPerEpoch)
    ensures var after := Apply(s, step, slotsPerEpoch);
      multiset(s.pending) + multiset(LoadedBy(s, after)) == multiset(after.pending) + multiset(AppliedBy(s, step))
  {
    hide Apply;
    PendingByStep(s, step, slotsPerEpoch);
    var after := Apply(s, step, slotsPerEpoch).pending;
    match step {
      case AddLoad(_, _) =>
        assert after[..|s.pending|] == s.pending;
        assert after == s.pending + after[|s.pending|..];
      case AddUpdate(which) =>
        assert s.pending == s.pending[..which] + [s.pending[which]] + s.pending[which + 1..];
        assert after == s.pending[..which] + s.pending[which + 1..];
      case _ =>
    }
  }

  /** Where a pending addition is after a step that does not apply it. */
  function Moved(place: nat, step: Step): nat {
    if step.AddUpdate? && step.which < place then place - 1 else place
  }

  /** In every run: an addition that leaves keys pending can be applied at any time until it is, and right after that
      each of its keys is active, if it was made at the genesis slot, or tracked. `places` says where it waits. */
  lemma {:induction false} FateOfAddition(
    states: seq<State>, steps: seq<Step>, slotsPerEpoch: nat, m: nat, n: nat) returns (places: seq<nat>)
    requires slotsPerEpoch > 0 && IsRun(states, steps, slotsPerEpoch) && m < n <= |steps| && steps[m].AddLoad?
    requires exists k :: k in steps[m].keys && k !in states[m].snapshot.active
    ensures 1 <= |places| <= n - m && places[0] == |states[m].pending|
    ensures forall i | 0 <= i < |places| :: WaitsAt(states[m], steps[m], states[m + 1 + i], places[i])
    ensures forall i | 0 <= i < |places| - 1 ::
      steps[m + 1 + i] != AddUpdate(places[i]) && places[i + 1] == Moved(places[i], steps[m + 1 + i])
    ensures |places| < n - m ==>
      var applied := m + |places|;
      && steps[applied] == AddUpdate(places[|places| - 1])
      && forall k | k in steps[m].keys && k !in states[m].snapshot.active ::
           if steps[m].slot == 0 then k in states[applied + 1].snapshot.active
           else k in states[applied + 1].snapshot.tracked
  {
    hide Apply, WaitsAt;
    if n == m + 1 {
      places := [|states[m].pending|];
      LoadWaits(states[m], steps[m], slotsPerEpoch);
    } else {
      places := FateOfAddition(states, steps, slotsPerEpoch, m, n - 1);
      if |places| == n - 1 - m {
        var place := places[|places| - 1];
        if steps[n - 1] == AddUpdate(place) {
          AppliedAddition(states[m], steps[m], states[n - 1], place, slotsPerEpoch);
        } else {
          StillWaits(states[m], steps[m], states[n - 1], place, steps[n - 1], slotsPerEpoch);
          places := places + [Moved(place, steps[n - 1])];
        }
      }
    }
  }

  /** The addition loaded by `load` waits at `place`: with exactly the requested keys that were not active. */
  ghost predicate WaitsAt(before: State, load: Step, s: State, place: nat)
    requires load.AddLoad?
  {
    && place < |s.pending| && s.pending[place].1 == load.slot
    && forall k :: k in s.pending[place].0 <==> k in load.keys && k !in before.snapshot.active
  }

  lemma LoadWaits(s: State, load: Step, slotsPerEpoch: nat)
    requires slotsPerEpoch > 0 && load.AddLoad? && exists k :: k in load.keys && k !in s.snapshot.active
    ensures WaitsAt(s, load, Apply(s, load, slotsPerEpoch), |s.pending|)
  {
    AdditionIsPending(s, load.keys, load.slot, slotsPerEpoch);
  }

  lemma StillWaits(before: State, load: Step, s: State, place: nat, step: Step, slotsPerEpoch: nat)
    requires slotsPerEpoch > 0 && load.AddLoad? && Enabled(s, step, slotsPerEpoch)
    requires WaitsAt(before, load, s, place) && step != AddUpdate(place)
    ensures WaitsAt(before, load, Apply(s, step, slotsPerEpoch), Moved(place, step))
  {
    hide Apply;
    PendingByStep(s, step, slotsPerEpoch);
  }

  lemma AppliedAddition(before: State, load: Step, s: State, place: nat, slotsPerEpoch: nat)
    requires slotsPerEpoch > 0 && load.AddLoad? && WaitsAt(before, load, s, place)
    ensures var after := Apply(s, AddUpdate(place), slotsPerEpoch).snapshot;
      forall k | k in load.keys && k !in before.snapshot.active ::
        if load.slot == 0 then k in after.active else k in after.tracked
  {
    hide Apply;
    var after := Apply(s, AddUpdate(place), slotsPerEpoch).snapshot;
    forall k | k in load.keys && k !in before.snapshot.active
      ensures if load.slot == 0 then k in after.active else k in after.tracked
    {
      StepByKey(s, AddUpdate(place), slotsPerEpoch, k);
    }
  }

  // --- The steps of the running call -------------------------------------------------------------

  /** In the states after `l` up to `n` one call runs: the one that loaded at `l`. */
  ghost predicate CallSince(states: seq<State>, steps: seq<Step>, l: nat, n: nat)
    requires |states| == |steps| + 1 && n <= |steps|
  {
    && l < n && steps[l].DetectLoad?
    && forall i | l < i <= n ::
         !states[i].phase.Idle? && states[i].phase.call == NewCall(states[l].snapshot, steps[l].slot, steps[l].indices)
  }

  lemma {:induction false} FindLoad(states: seq<State>, steps: seq<Step>, slotsPerEpoch: nat, n: nat) returns (l: nat)
    requires slotsPerEpoch > 0 && IsRun(states, steps, slotsPerEpoch) && n <= |steps| && !states[n].phase.Idle?
    ensures CallSince(states, steps, l, n)
  {
    hide NewCall;
    if steps[n - 1].DetectLoad? {
      l := n - 1;
    } else {
      SameCall(states[n - 1], steps[n - 1], slotsPerEpoch);
      l := FindLoad(states, steps, slotsPerEpoch, n - 1);
    }
  }

  lemma SameCall(s: State, step: Step, slotsPerEpoch: nat)
    requires slotsPerEpoch > 0 && Enabled(s, step, slotsPerEpoch) && !step.DetectLoad?
    ensures var after := Apply(s, step, slotsPerEpoch).phase;
      !after.Idle? ==> !s.phase.Idle? && after.call == s.phase.call
  {
  }

  /** A call is cleared by the response about the current epoch, unless there is nothing to check. */
  lemma ClearedBy(s: State, step: Step, slotsPerEpoch: nat)
    requires slotsPerEpoch > 0 && Enabled(s, step, slotsPerEpoch)
    ensures var after := Apply(s, step, slotsPerEpoch).phase;
      (after.Passed? || after.Selected?) && after.call.checked != map[] ==>
        && !step.DetectLoad?
        && (s.phase.Passed? || s.phase.Selected?
            || (s.phase.Querying? && step.QueryCurrent? && QueryPasses(after.call, step.response)))
  {
    hide QueryPasses;
  }

  lemma AskedBy(s: State, step: Step, slotsPerEpoch: nat)
    requires slotsPerEpoch > 0 && Enabled(s, step, slotsPerEpoch)
    ensures var after := Apply(s, step, slotsPerEpoch).phase;
      after.Querying? && after.previous.Some? ==>
        && !step.DetectLoad? && s.phase.Querying?
        && (s.phase.previous.Some? || (step.QueryPrevious? && QueryPasses(after.call, step.response)))
  {
    hide QueryPasses;
  }

  /** The response that cleared the call for the current epoch was given after its load. */
  lemma {:induction false} FindCurrent(
    states: seq<State>, steps: seq<Step>, slotsPerEpoch: nat, l: nat, n: nat) returns (c: nat)
    requires slotsPerEpoch > 0 && IsRun(states, steps, slotsPerEpoch) && n <= |steps| && CallSince(states, steps, l, n)
    requires (states[n].phase.Passed? || states[n].phase.Selected?) && states[n].phase.call.checked != map[]
    ensures l < c < n && steps[c].QueryCurrent? && QueryPasses(states[n].phase.call, steps[c].response)
    ensures states[c].phase.Querying? && Enabled(states[c], steps[c], slotsPerEpoch)
  {
    hide NewCall, QueryPasses, Apply, Enabled;
    var before := states[n - 1].phase;
    ClearedBy(states[n - 1], steps[n - 1], slotsPerEpoch);
    if before.Passed? || before.Selected? {
      c := FindCurrent(states, steps, slotsPerEpoch, l, n - 1);
    } else {
      c := n - 1;
    }
  }

  lemma {:induction false} FindPrevious(
    states: seq<State>, steps: seq<Step>, slotsPerEpoch: nat, l: nat, n: nat) returns (p: nat)
    requires slotsPerEpoch > 0 && IsRun(states, steps, slotsPerEpoch) && n <= |steps| && CallSince(states, steps, l, n)
    requires states[n].phase.Querying? && states[n].phase.previous.Some?
    ensures l < p < n && steps[p].QueryPrevious? && QueryPasses(states[n].phase.call, steps[p].response)
  {
    hide NewCall, QueryPasses, Apply, Enabled;
    var before := states[n - 1].phase;
    AskedBy(states[n - 1], steps[n - 1], slotsPerEpoch);
    if before.Querying? && before.previous.Some? {
      p := FindPrevious(states, steps, slotsPerEpoch, l, n - 1);
    } else {
      p := n - 1;
    }
  }

  // --- The stamp of a key ------------------------------------------------------------------------

  ghost predicate HasStamp(s: State, k: Key, stamp: Slot) {
    k in s.snapshot.tracked && s.snapshot.tracked[k] == Some(stamp)
  }

  /** The step that gave a key the stamp it has. */
  lemma {:induction false} FindStamp(
    states: seq<State>, steps: seq<Step>, slotsPerEpoch: nat, n: nat, k: Key, stamp: Slot) returns (t: nat)
    requires slotsPerEpoch > 0 && IsRun(states, steps, slotsPerEpoch) && n <= |steps| && HasStamp(states[n], k, stamp)
    ensures t < n && !HasStamp(states[t], k, stamp) && forall i | t < i <= n :: HasStamp(states[i], k, stamp)
  {
    hide Apply, Enabled;
    if HasStamp(states[n - 1], k, stamp) {
      t := FindStamp(states, steps, slotsPerEpoch, n - 1, k, stamp);
    } else {
      t := n - 1;
    }
  }

  /** A stamp is the slot of the addition, or of the detect call that gave it. */
  lemma StampIsSlot(states: seq<State>, steps: seq<Step>, slotsPerEpoch: nat, t: nat, k: Key, stamp: Slot)
    requires slotsPerEpoch > 0 && IsRun(states, steps, slotsPerEpoch) && t < |steps|
    requires !HasStamp(states[t], k, stamp) && HasStamp(states[t + 1], k, stamp)
    ensures match steps[t]
      case AddUpdate(which) =>
        which < |states[t].pending| && k in states[t].pending[which].0 && stamp == states[t].pending[which].1
      case DetectRestamp => states[t].phase.Loaded? && stamp == states[t].phase.call.slot
      case _ => false
  {
    hide Apply;
    StepByKey(states[t], steps[t], slotsPerEpoch, k);
    if steps[t].DetectRestamp? {
      var l := FindLoad(states, steps, slotsPerEpoch, t);
      RestampsAreSlots(states[l].snapshot, steps[l].slot, steps[l].indices, k);
    }
  }

  lemma RestampsAreSlots(s: Snapshot, slot: Slot, indices: Indices, k: Key)
    ensures var call := NewCall(s, slot, indices);
      call.slot == slot && (k in call.restamped && call.restamped[k].Some? ==> call.restamped[k].value == slot)
  {
  }

  /** The call will clear the stamp of the key or remove the key. */
  ghost predicate Marks(s: State, k: Key) {
    s.phase.Loaded? && (k in s.phase.call.removed
                        || (k in s.phase.call.restamped && s.phase.call.restamped[k].None?))
  }

  lemma MarksUntilRestamp(s: State, step: Step, slotsPerEpoch: nat, k: Key, stamp: Slot)
    requires slotsPerEpoch > 0 && Enabled(s, step, slotsPerEpoch) && Marks(s, k)
    ensures var after := Apply(s, step, slotsPerEpoch); Marks(after, k) || !HasStamp(after, k, stamp)
  {
  }

  lemma LoadMarks(s: State, slot: Slot, indices: Indices, slotsPerEpoch: nat, k: Key, stamp: Slot)
    requires slotsPerEpoch > 0 && s.phase.Idle? && HasStamp(s, k, stamp) && !Resolves(indices, k)
    ensures Marks(Apply(s, DetectLoad(slot, indices), slotsPerEpoch), k)
  {
  }

  /** A call that loads a stamped key without its index cannot leave the stamp in place. */
  lemma {:induction false} MarkedStays(
    states: seq<State>, steps: seq<Step>, slotsPerEpoch: nat, i: nat, n: nat, k: Key, stamp: Slot)
    requires slotsPerEpoch > 0 && IsRun(states, steps, slotsPerEpoch) && i < n <= |steps| && steps[i].DetectLoad?
    requires !Resolves(steps[i].indices, k) && forall j | i <= j <= n :: HasStamp(states[j], k, stamp)
    ensures Marks(states[n], k)
  {
    hide Apply, HasStamp, Marks;
    if n == i + 1 {
      LoadMarks(states[i], steps[i].slot, steps[i].indices, slotsPerEpoch, k, stamp);
    } else {
      MarkedStays(states, steps, slotsPerEpoch, i, n - 1, k, stamp);
      MarksUntilRestamp(states[n - 1], steps[n - 1], slotsPerEpoch, k, stamp);
    }
  }

  // --- Why a key is active -----------------------------------------------------------------------

  /** In every run: every active key became active at one step, which applied an addition made at the genesis slot, or
      ended a detect call. */
  lemma {:induction false} ActiveHasReason(
    states: seq<State>, steps: seq<Step>, slotsPerEpoch: nat, n: nat, k: Key) returns (m: nat)
    requires slotsPerEpoch > 0 && IsRun(states, steps, slotsPerEpoch) && n <= |steps|
    requires k in states[n].snapshot.active
    ensures m < n && k !in states[m].snapshot.active && k in states[m + 1].snapshot.active
    ensures match steps[m]
      case AddUpdate(which) =>
        which < |states[m].pending| && k in states[m].pending[which].0 && states[m].pending[which].1 == 0
      case ActivateKeys => true
      case _ => false
  {
    hide Apply;
    if k in states[n - 1].snapshot.active {
      m := ActiveHasReason(states, steps, slotsPerEpoch, n - 1, k);
    } else {
      m := n - 1;
      StepByKey(states[m], steps[m], slotsPerEpoch, k);
    }
  }

  /** In every run: a detect call that makes a key active loaded at some step `l`, with the index of the key. It was
      told at step `c`, and from the second epoch on also at step `p` before, that this index is not live in the current
      and in the previous epoch. The key got its stamp at step `t` and kept it since; the stamp is at least two epochs
      before the slot of the call. Every call that loaded since then had the index of the key. */
  lemma ActivationIsJustified(states: seq<State>, steps: seq<Step>, slotsPerEpoch: nat, m: nat, k: Key)
    returns (l: nat, c: nat, p: nat, t: nat, stamp: Slot)
    requires slotsPerEpoch > 0 && IsRun(states, steps, slotsPerEpoch) && m < |steps| && steps[m].ActivateKeys?
    requires k !in states[m].snapshot.active && k in states[m + 1].snapshot.active
    ensures l < c < m && steps[l].DetectLoad? && forall i | l < i <= m :: !states[i].phase.Idle?
    ensures k in steps[l].indices && steps[l].indices[k].Some?
    ensures steps[c].QueryCurrent? && steps[c].response.Some?
    ensures (steps[l].indices[k].value, true) !in steps[c].response.value
    ensures steps[l].slot >= slotsPerEpoch ==>
      && l < p < c && steps[p].QueryPrevious? && steps[p].response.Some?
      && (steps[l].indices[k].value, true) !in steps[p].response.value
    ensures t < m && !HasStamp(states[t], k, stamp) && forall i | t < i <= m :: HasStamp(states[i], k, stamp)
    ensures match steps[t]
      case AddUpdate(which) =>
        which < |states[t].pending| && k in states[t].pending[which].0 && stamp == states[t].pending[which].1
      case DetectRestamp => states[t].phase.Loaded? && stamp == states[t].phase.call.slot
      case _ => false
    ensures stamp + 2 * slotsPerEpoch <= steps[l].slot || steps[l].slot >= U64_MAX
    ensures forall i | t < i < m && steps[i].DetectLoad? :: k in steps[i].indices && steps[i].indices[k].Some?
  {
    hide Apply, HasStamp, Marks, Safe, StampIsCovered, KeepsAdditions, Epoch;
    RunsAreSafe(states, steps, slotsPerEpoch, m);
    StepByKey(states[m], steps[m], slotsPerEpoch, k);
    SelectedNeedsCall(states[m], slotsPerEpoch, k);
    stamp := states[m].snapshot.tracked[k].value;
    l := FindLoad(states, steps, slotsPerEpoch, m);
    c := FindCurrent(states, steps, slotsPerEpoch, l, m);
    CheckedHasIndex(states[l].snapshot, steps[l].slot, steps[l].indices, k, steps[c].response);
    p := 0;
    if steps[l].slot >= slotsPerEpoch {
      PreviousWasAsked(states[c], steps[c].response, slotsPerEpoch);
      p := FindPrevious(states, steps, slotsPerEpoch, l, c);
      CheckedHasIndex(states[l].snapshot, steps[l].slot, steps[l].indices, k, steps[p].response);
    }
    t := FindStamp(states, steps, slotsPerEpoch, m, k, stamp);
    StampIsSlot(states, steps, slotsPerEpoch, t, k, stamp);
    forall i | t < i < m && steps[i].DetectLoad? ensures Resolves(steps[i].indices, k) {
      if !Resolves(steps[i].indices, k) {
        MarkedStays(states, steps, slotsPerEpoch, i, m, k, stamp);
        SelectedMarksNothing(states[m], k);
      }
    }
  }

  lemma SelectedMarksNothing(s: State, k: Key)
    requires s.phase.Selected?
    ensures !Marks(s, k)
  {
  }

  lemma SelectedNeedsCall(s: State, slotsPerEpoch: nat, k: Key)
    requires slotsPerEpoch > 0 && Inv(s, slotsPerEpoch) && s.phase.Selected? && k in s.phase.keys
    ensures k in s.phase.call.checked && k in s.snapshot.tracked && s.snapshot.tracked[k].Some?
    ensures HasStamp(s, k, s.snapshot.tracked[k].value)
    ensures s.snapshot.tracked[k].value + 2 * slotsPerEpoch <= s.phase.call.slot || s.phase.call.slot >= U64_MAX
  {
    hide Safe, StampIsCovered;
  }

  lemma CheckedHasIndex(s: Snapshot, slot: Slot, indices: Indices, k: Key, response: Option<Liveness>)
    requires k in NewCall(s, slot, indices).checked && QueryPasses(NewCall(s, slot, indices), response)
    ensures NewCall(s, slot, indices).slot == slot && k in indices && indices[k].Some?
    ensures response.Some? && (indices[k].value, true) !in response.value
  {
    var call := NewCall(s, slot, indices);
    assert call.checked[k] in call.checked.Values;
    NotReportedIsNotLive(call, response, call.checked[k]);
  }

  lemma PreviousWasAsked(s: State, response: Option<Liveness>, slotsPerEpoch: nat)
    requires slotsPerEpoch > 0 && s.phase.Querying? && Enabled(s, QueryCurrent(response), slotsPerEpoch)
    requires s.phase.call.slot >= slotsPerEpoch
    ensures s.phase.previous.Some?
  {
    EpochIsZero(s.phase.call.slot, slotsPerEpoch);
  }

  // --- Additions during a call -------------------------------------------------------------------

  /** In every run: a key that a call did not load, tracked by an addition while the call runs, keeps the slot of the
      addition as its stamp until the call is over. */
  lemma {:induction false} AdditionKeepsStamp(
    states: seq<State>, steps: seq<Step>, slotsPerEpoch: nat, l: nat, i: nat, n: nat, k: Key)
    requires slotsPerEpoch > 0 && IsRun(states, steps, slotsPerEpoch) && l < i < n <= |steps|
    requires steps[l].DetectLoad? && forall j | l < j < n :: !states[j].phase.Idle?
    requires k !in states[l].snapshot.tracked && k !in states[i].snapshot.tracked
    requires steps[i].AddUpdate? && steps[i].which < |states[i].pending|
    requires k in states[i].pending[steps[i].which].0 && states[i].pending[steps[i].which].1 != 0
    ensures HasStamp(states[n], k, states[i].pending[steps[i].which].1)
  {
    hide Apply, NewCall;
    StepByKey(states[n - 1], steps[n - 1], slotsPerEpoch, k);
    if n > i + 1 {
      AdditionKeepsStamp(states, steps, slotsPerEpoch, l, i, n - 1, k);
      RunsAreSafe(states, steps, slotsPerEpoch, n - 1);
      CallStays(states, steps, slotsPerEpoch, l, n - 1);
      NotLoadedNotTouched(states[l].snapshot, steps[l].slot, steps[l].indices, k);
      if states[n - 1].phase.Selected? && k in states[n - 1].phase.keys {
        SelectedNeedsCall(states[n - 1], slotsPerEpoch, k);
      }
    }
  }

  lemma {:induction false} CallStays(states: seq<State>, steps: seq<Step>, slotsPerEpoch: nat, l: nat, n: nat)
    requires slotsPerEpoch > 0 && IsRun(states, steps, slotsPerEpoch) && l < n <= |steps| && steps[l].DetectLoad?
    requires forall j | l < j <= n :: !states[j].phase.Idle?
    ensures CallSince(states, steps, l, n)
  {
    hide NewCall;
    if n > l + 1 {
      CallStays(states, steps, slotsPerEpoch, l, n - 1);
      LoadNeedsIdle(states[n - 1], steps[n - 1], slotsPerEpoch);
      SameCall(states[n - 1], steps[n - 1], slotsPerEpoch);
    }
  }

  lemma LoadNeedsIdle(s: State, step: Step, slotsPerEpoch: nat)
    requires slotsPerEpoch > 0 && Enabled(s, step, slotsPerEpoch) && !s.phase.Idle?
    ensures !step.DetectLoad?
  {
  }

  lemma NotLoadedNotTouched(s: Snapshot, slot: Slot, indices: Indices, k: Key)
    requires k !in s.tracked
    ensures var call := NewCall(s, slot, indices);
      k !in call.checked && k !in call.restamped && k !in call.removed
  {
  }
}
