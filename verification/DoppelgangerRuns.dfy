/**
 Runs of doppelganger protection: any interleaving of additions with non-overlapping detect calls. Every
 step applies one of the loads or updates of `Doppelganger`, and records what the results speak about.
*/
module DoppelgangerRuns {
  import opened Results
  import opened Doppelganger

  /** What a detect call knows after its first load. `loaded` are the keys tracked at that load. */
  datatype Call = Call(
    slot: Slot, indices: Indices, loaded: set<Key>,
    checked: map<Key, Index>, restamped: map<Key, Option<Slot>>, removed: set<Key>)

  /** Where the running detect call is; the responses are those of the queries for the previous and the
      current epoch, where they were made. */
  datatype Phase =
    | Idle
    | Loaded(call: Call)
    | Querying(call: Call, previous: Option<Liveness>)
    | Passed(call: Call, previous: Option<Liveness>, current: Option<Liveness>)
    | Selected(call: Call, previous: Option<Liveness>, current: Option<Liveness>, keys: set<Key>)

  /** A key that a detect call made active: its stamp, the number of loads made before it was stamped, the
      number of the call's own load, and the call with the responses it got. */
  datatype Activation = Activation(
    key: Key, stamp: Slot, stampedAt: nat, loadedAt: nat,
    call: Call, previous: Option<Liveness>, current: Option<Liveness>)

  datatype State = State(
    snapshot: Snapshot,
    pending: seq<(seq<Key>, Slot)>,       // additions between their load and their update
    phase: Phase,
    loads: seq<Indices>,                  // the indices given to every detect call that loaded so far
    stampedAt: map<Key, nat>,             // how many loads preceded the current stamp of a key
    addedDuringCall: map<Key, Slot>,      // keys the last call did not load, tracked by an addition as it ran
    addedAtGenesis: set<Key>,
    activations: set<Activation>)

  datatype Step =
    | AddLoad(keys: seq<Key>, slot: Slot)
    | AddUpdate(which: nat)
    | DetectLoad(slot: Slot, indices: Indices)
    | DetectRestamp
    | QueryPrevious(response: Option<Liveness>)
    | QueryCurrent(response: Option<Liveness>)
    | SkipQueries
    | SelectKeys
    | ActivateKeys
    | Drop

  function Init(): State {
    State(Snapshot({}, map[]), [], Idle, [], map[], map[], {}, {})
  }

  function Epoch(slot: Slot, slotsPerEpoch: nat): nat
    requires slotsPerEpoch > 0
  {
    slot / slotsPerEpoch
  }

  predicate Enabled(s: State, step: Step, slotsPerEpoch: nat)
    requires slotsPerEpoch > 0
  {
    match step
    case AddLoad(_, _) => true
    case AddUpdate(which) => which < |s.pending|
    case DetectLoad(_, _) => s.phase.Idle?
    case DetectRestamp => s.phase.Loaded?
    case QueryPrevious(_) =>
      s.phase.Querying? && s.phase.previous.None? && s.phase.call.checked != map[]
      && Epoch(s.phase.call.slot, slotsPerEpoch) > 0
    case QueryCurrent(_) =>
      s.phase.Querying? && s.phase.call.checked != map[]
      && (Epoch(s.phase.call.slot, slotsPerEpoch) > 0 ==> s.phase.previous.Some?)
    case SkipQueries => s.phase.Querying? && s.phase.call.checked == map[]
    case SelectKeys => s.phase.Passed?
    case ActivateKeys => s.phase.Selected?
    case Drop => s.phase.Querying?
  }

  /** A query that fails, or reports a checked key live, ends the call. */
  predicate QueryPasses(call: Call, response: Option<Liveness>) {
    response.Some? && !ReportsLive(response.value, call.checked.Values)
  }

  function NewCall(s: Snapshot, slot: Slot, indices: Indices): Call {
    Call(slot, indices, s.tracked.Keys, Checked(s.tracked, indices),
         Restamped(s.tracked, indices, slot), Removed(s.tracked, indices))
  }

  function ApplyAdd(s: State, which: nat): State
    requires which < |s.pending|
  {
    var (keys, slot) := s.pending[which];
    var rest := s.(pending := s.pending[..which] + s.pending[which + 1..]);
    if slot == GENESIS_SLOT then
      rest.(snapshot := ActivateAtGenesis(s.snapshot, keys), addedAtGenesis := s.addedAtGenesis + KeySet(keys))
    else
      var untracked := KeySet(keys) - s.snapshot.tracked.Keys;
      var unloaded := if s.phase.Idle? then {} else untracked - s.phase.call.loaded;
      rest.(snapshot := Track(s.snapshot, keys, slot),
            stampedAt := s.stampedAt + map k | k in untracked :: |s.loads|,
            addedDuringCall := s.addedDuringCall + map k | k in unloaded :: slot)
  }

  function ApplyRestamp(s: State): State
    requires s.phase.Loaded?
  {
    var call := s.phase.call;
    s.(snapshot := Restamp(s.snapshot, call.restamped, call.removed),
       phase := Querying(call, None),
       stampedAt := s.stampedAt + map k | k in call.restamped && call.restamped[k].Some? :: |s.loads|)
  }

  predicate Stamped(s: State, key: Key) {
    key in s.snapshot.tracked && s.snapshot.tracked[key].Some?
  }

  function ApplyActivate(s: State): State
    requires s.phase.Selected?
  {
    var Selected(call, previous, current, keys) := s.phase;
    s.(snapshot := Activate(s.snapshot, keys),
       phase := Idle,
       activations := s.activations + set k | k in keys && Stamped(s, k) && k in s.stampedAt && |s.loads| > 0 ::
         Activation(k, s.snapshot.tracked[k].value, s.stampedAt[k], |s.loads| - 1, call, previous, current))
  }

  function EndCall(s: State): State {
    s.(phase := Idle)
  }

  function Apply(s: State, step: Step, slotsPerEpoch: nat): State
    requires slotsPerEpoch > 0 && Enabled(s, step, slotsPerEpoch)
  {
    match step
    case AddLoad(keys, slot) =>
      var filtered := Inactive(keys, s.snapshot.active);
      if filtered == [] then s else s.(pending := s.pending + [(filtered, slot)])
    case AddUpdate(which) => ApplyAdd(s, which)
    case DetectLoad(slot, indices) =>
      s.(phase := Loaded(NewCall(s.snapshot, slot, indices)), loads := s.loads + [indices], addedDuringCall := map[])
    case DetectRestamp => ApplyRestamp(s)
    case QueryPrevious(response) =>
      if QueryPasses(s.phase.call, response) then s.(phase := Querying(s.phase.call, response)) else EndCall(s)
    case QueryCurrent(response) =>
      if QueryPasses(s.phase.call, response) then s.(phase := Passed(s.phase.call, s.phase.previous, response))
      else EndCall(s)
    case SkipQueries => s.(phase := Passed(s.phase.call, None, None))
    case SelectKeys =>
      var Passed(call, previous, current) := s.phase;
      var keys := ToActivate(s.snapshot.tracked, call.checked, call.slot, slotsPerEpoch);
      if keys == {} then EndCall(s) else s.(phase := Selected(call, previous, current, keys))
    case ActivateKeys => ApplyActivate(s)
    case Drop => EndCall(s)
  }

  // --- What every reachable state satisfies ------------------------------------------------------

  /** The call made the key active rightly: it had its index, was not told that the index is live in any
      epoch it had to ask about, came at least two epochs after the key was stamped, and every call that
      loaded since the stamp, itself included, had the index of the key. */
  ghost predicate Justified(a: Activation, loads: seq<Indices>, slotsPerEpoch: nat)
    requires slotsPerEpoch > 0
  {
    && a.stampedAt <= a.loadedAt + 1 && a.loadedAt < |loads| && loads[a.loadedAt] == a.call.indices
    && Resolves(a.call.indices, a.key)
    && NotLive(a.current, a.call.indices[a.key].value)
    && (Epoch(a.call.slot, slotsPerEpoch) > 0 ==> NotLive(a.previous, a.call.indices[a.key].value))
    && WindowElapsed(a.stamp, a.call.slot, slotsPerEpoch)
    && (a.call.slot < U64_MAX ==> a.stamp + CHECK_DURATION_IN_EPOCHS * slotsPerEpoch <= a.call.slot)
    && forall j | a.stampedAt <= j <= a.loadedAt :: Resolves(loads[j], a.key)
  }

  predicate NotLive(response: Option<Liveness>, index: Index) {
    response.Some? && (index, true) !in response.value
  }

  /** No key is active without a reason. */
  ghost predicate Safe(s: State, slotsPerEpoch: nat)
    requires slotsPerEpoch > 0
  {
    && (forall k | k in s.snapshot.active ::
          k in s.addedAtGenesis || exists a :: a in s.activations && a.key == k)
    && (forall a | a in s.activations :: Justified(a, s.loads, slotsPerEpoch))
  }

  /** A key that a call did not load, tracked by an addition while the call runs, keeps the stamp of the
      addition through both updates of the call. */
  ghost predicate KeepsAdditions(s: State) {
    forall k | k in s.addedDuringCall ::
      k in s.snapshot.tracked && s.snapshot.tracked[k] == Some(s.addedDuringCall[k])
  }

  // --- The invariant -----------------------------------------------------------------------------

  ghost predicate CallIsConsistent(call: Call, loads: seq<Indices>) {
    && |loads| > 0 && loads[|loads| - 1] == call.indices
    && (forall k | k in call.checked :: Resolves(call.indices, k) && call.checked[k] == call.indices[k].value)
    && call.checked.Keys <= call.loaded && call.restamped.Keys <= call.loaded && call.removed <= call.loaded
    && (forall k | k in call.restamped :: call.restamped[k].Some? ==> Resolves(call.indices, k))
  }

  /** Every load since the current stamp of a key resolved the key. The running call, until it restamps, is
      an exception, but then it has marked the key. */
  ghost predicate StampIsCovered(s: State, k: Key) {
    Stamped(s, k) ==>
      && k in s.stampedAt && s.stampedAt[k] <= |s.loads|
      && (forall j | s.stampedAt[k] <= j < |s.loads| ::
            Resolves(s.loads[j], k) || (s.phase.Loaded? && j == |s.loads| - 1))
      && (s.phase.Loaded? && s.stampedAt[k] < |s.loads| && !Resolves(s.phase.call.indices, k) ==>
            k in s.phase.call.removed
            || (k in s.phase.call.restamped && s.phase.call.restamped[k].None?))
  }

  ghost predicate ResponsesPass(call: Call, previous: Option<Liveness>, current: Option<Liveness>, slotsPerEpoch: nat)
    requires slotsPerEpoch > 0
  {
    call.checked != map[] ==>
      && QueryPasses(call, current)
      && (Epoch(call.slot, slotsPerEpoch) > 0 ==> QueryPasses(call, previous))
  }

  ghost predicate PhaseIsConsistent(s: State, slotsPerEpoch: nat)
    requires slotsPerEpoch > 0
  {
    && (!s.phase.Idle? ==> CallIsConsistent(s.phase.call, s.loads))
    && (s.phase.Querying? && s.phase.previous.Some? ==> QueryPasses(s.phase.call, s.phase.previous))
    && (s.phase.Passed? || s.phase.Selected? ==>
          ResponsesPass(s.phase.call, s.phase.previous, s.phase.current, slotsPerEpoch))
    && (s.phase.Selected? ==>
          forall k | k in s.phase.keys ::
            Stamped(s, k) && k in s.phase.call.checked
            && WindowElapsed(s.snapshot.tracked[k].value, s.phase.call.slot, slotsPerEpoch))
  }

  ghost predicate AdditionsAreOutsideCall(s: State) {
    !s.phase.Idle? ==> s.addedDuringCall.Keys !! s.phase.call.loaded
  }

  ghost predicate Inv(s: State, slotsPerEpoch: nat)
    requires slotsPerEpoch > 0
  {
    && (forall k :: StampIsCovered(s, k))
    && PhaseIsConsistent(s, slotsPerEpoch)
    && Safe(s, slotsPerEpoch)
    && KeepsAdditions(s)
    && AdditionsAreOutsideCall(s)
  }

  lemma InitHasInv(slotsPerEpoch: nat)
    requires slotsPerEpoch > 0
    ensures Inv(Init(), slotsPerEpoch)
  {
  }

  // --- Every step keeps the invariant ------------------------------------------------------------

  lemma AddKeepsInv(s: State, which: nat, slotsPerEpoch: nat)
    requires slotsPerEpoch > 0 && Inv(s, slotsPerEpoch) && which < |s.pending|
    ensures Inv(ApplyAdd(s, which), slotsPerEpoch)
  {
    hide Resolves, WindowElapsed, Justified, QueryPasses, CallIsConsistent, ResponsesPass;
    var t := ApplyAdd(s, which);
    forall k
      ensures StampIsCovered(t, k)
    {
      assert StampIsCovered(s, k);
    }
  }

  lemma LoadKeepsInv(s: State, slot: Slot, indices: Indices, slotsPerEpoch: nat)
    requires slotsPerEpoch > 0 && Inv(s, slotsPerEpoch) && s.phase.Idle?
    ensures Inv(Apply(s, DetectLoad(slot, indices), slotsPerEpoch), slotsPerEpoch)
  {
    hide WindowElapsed;
    var t := Apply(s, DetectLoad(slot, indices), slotsPerEpoch);
    forall k
      ensures StampIsCovered(t, k)
    {
      assert StampIsCovered(s, k);
    }
    forall a | a in s.activations
      ensures Justified(a, t.loads, slotsPerEpoch)
    {
      assert forall j | a.stampedAt <= j <= a.loadedAt :: t.loads[j] == s.loads[j];
    }
  }

  lemma RestampKeepsInv(s: State, slotsPerEpoch: nat)
    requires slotsPerEpoch > 0 && Inv(s, slotsPerEpoch) && s.phase.Loaded?
    ensures Inv(ApplyRestamp(s), slotsPerEpoch)
  {
    hide WindowElapsed, Justified, QueryPasses;
    var t := ApplyRestamp(s);
    forall k
      ensures StampIsCovered(t, k)
    {
      assert StampIsCovered(s, k);
    }
  }

  /** Steps that only move the running call along. */
  lemma PhaseStepKeepsInv(s: State, phase: Phase, slotsPerEpoch: nat)
    requires slotsPerEpoch > 0 && Inv(s, slotsPerEpoch) && !s.phase.Loaded? && !phase.Loaded?
    requires !phase.Idle? ==> !s.phase.Idle? && phase.call == s.phase.call
    requires PhaseIsConsistent(s.(phase := phase), slotsPerEpoch)
    ensures Inv(s.(phase := phase), slotsPerEpoch)
  {
    hide Resolves, WindowElapsed, Justified, PhaseIsConsistent;
    var t := s.(phase := phase);
    forall k
      ensures StampIsCovered(t, k)
    {
      assert StampIsCovered(s, k);
    }
  }

  lemma SelectedIsJustified(s: State, k: Key, slotsPerEpoch: nat)
    requires slotsPerEpoch > 0 && Inv(s, slotsPerEpoch) && s.phase.Selected? && k in s.phase.keys
    ensures Stamped(s, k) && k in s.stampedAt && |s.loads| > 0
    ensures Justified(Activation(k, s.snapshot.tracked[k].value, s.stampedAt[k], |s.loads| - 1,
                                 s.phase.call, s.phase.previous, s.phase.current), s.loads, slotsPerEpoch)
  {
    assert StampIsCovered(s, k);
    var call := s.phase.call;
    assert call.checked[k] in call.checked.Values;
    NotReportedIsNotLive(call, s.phase.current, call.checked[k]);
    if Epoch(call.slot, slotsPerEpoch) > 0 {
      NotReportedIsNotLive(call, s.phase.previous, call.checked[k]);
    }
  }

  lemma NotReportedIsNotLive(call: Call, response: Option<Liveness>, index: Index)
    requires QueryPasses(call, response) && index in call.checked.Values
    ensures NotLive(response, index)
  {
  }

  lemma ActivateKeepsInv(s: State, slotsPerEpoch: nat)
    requires slotsPerEpoch > 0 && Inv(s, slotsPerEpoch) && s.phase.Selected?
    ensures Inv(ApplyActivate(s), slotsPerEpoch)
  {
    hide Resolves, WindowElapsed, Justified, QueryPasses, ResponsesPass;
    var t := ApplyActivate(s);
    forall k
      ensures StampIsCovered(t, k)
    {
      assert StampIsCovered(s, k);
    }
    forall k | k in s.phase.keys
      ensures exists a :: a in t.activations && a.key == k
    {
      SelectedIsJustified(s, k, slotsPerEpoch);
      var a := Activation(k, s.snapshot.tracked[k].value, s.stampedAt[k], |s.loads| - 1,
                          s.phase.call, s.phase.previous, s.phase.current);
      assert a in t.activations;
    }
    forall a | a in t.activations
      ensures Justified(a, t.loads, slotsPerEpoch)
    {
      if a !in s.activations {
        SelectedIsJustified(s, a.key, slotsPerEpoch);
      }
    }
  }

  lemma StepKeepsInv(s: State, step: Step, slotsPerEpoch: nat)
    requires slotsPerEpoch > 0 && Inv(s, slotsPerEpoch) && Enabled(s, step, slotsPerEpoch)
    ensures Inv(Apply(s, step, slotsPerEpoch), slotsPerEpoch)
  {
    hide StampIsCovered, Justified, KeepsAdditions;
    var t := Apply(s, step, slotsPerEpoch);
    match step
    case AddLoad(_, _) =>
      PendingDoesNotMatter(s, t.pending, slotsPerEpoch);
    case AddUpdate(which) => AddKeepsInv(s, which, slotsPerEpoch);
    case DetectLoad(slot, indices) => LoadKeepsInv(s, slot, indices, slotsPerEpoch);
    case DetectRestamp => RestampKeepsInv(s, slotsPerEpoch);
    case ActivateKeys => ActivateKeepsInv(s, slotsPerEpoch);
    case _ => PhaseStepKeepsInv(s, t.phase, slotsPerEpoch);
  }

  lemma PendingDoesNotMatter(s: State, pending: seq<(seq<Key>, Slot)>, slotsPerEpoch: nat)
    requires slotsPerEpoch > 0 && Inv(s, slotsPerEpoch)
    ensures Inv(s.(pending := pending), slotsPerEpoch)
  {
    hide Resolves, WindowElapsed, Justified, QueryPasses, ResponsesPass, CallIsConsistent;
    forall k
      ensures StampIsCovered(s.(pending := pending), k)
    {
      assert StampIsCovered(s, k);
    }
  }

  // --- Runs --------------------------------------------------------------------------------------

  ghost predicate IsRun(states: seq<State>, steps: seq<Step>, slotsPerEpoch: nat)
    requires slotsPerEpoch > 0
  {
    && |states| == |steps| + 1 && states[0] == Init()
    && forall i | 0 <= i < |steps| ::
         Enabled(states[i], steps[i], slotsPerEpoch) && states[i + 1] == Apply(states[i], steps[i], slotsPerEpoch)
  }

  /** In every interleaving, every active key was added at the genesis slot or activated rightly, and keys
      added during a call keep their stamp. */
  lemma {:induction false} RunsAreSafe(states: seq<State>, steps: seq<Step>, slotsPerEpoch: nat, n: nat)
    requires slotsPerEpoch > 0 && IsRun(states, steps, slotsPerEpoch) && n < |states|
    ensures Inv(states[n], slotsPerEpoch)
    ensures Safe(states[n], slotsPerEpoch) && KeepsAdditions(states[n])
  {
    if n == 0 {
      InitHasInv(slotsPerEpoch);
    } else {
      RunsAreSafe(states, steps, slotsPerEpoch, n - 1);
      StepKeepsInv(states[n - 1], steps[n - 1], slotsPerEpoch);
    }
  }

  /** In every interleaving, an active key stays active. */
  lemma {:induction false} ActiveNeverShrinks(states: seq<State>, steps: seq<Step>, slotsPerEpoch: nat, m: nat, n: nat)
    requires slotsPerEpoch > 0 && IsRun(states, steps, slotsPerEpoch) && m <= n < |states|
    ensures states[m].snapshot.active <= states[n].snapshot.active
  {
    if m < n {
      ActiveNeverShrinks(states, steps, slotsPerEpoch, m, n - 1);
      var s := states[n - 1];
      assert states[n] == Apply(s, steps[n - 1], slotsPerEpoch);
    }
  }
}
