/**
 The protection at work: the shared cell together with the additions between their two steps and the local
 variables of the running detect call. Whatever it does is a step of `DoppelgangerRuns`.
*/
module DoppelgangerExecution {
  import opened Results
  import opened Doppelganger
  import opened DoppelgangerRuns

  /** The local variables of `detect_doppelgangers`. */
  datatype Locals = Locals(
    slot: Slot, checked: map<Key, Index>, byIndex: map<Index, Key>,
    restamped: map<Key, Option<Slot>>, removed: set<Key>)

  /** How far the running detect call has come. */
  datatype Progress =
    | NoCall
    | Classified(locals: Locals)
    | Asking(locals: Locals, previousAsked: bool)
    | Cleared(locals: Locals)
    | Activating(locals: Locals, keys: set<Key>)

  ghost predicate Reflects(locals: Locals, call: Call) {
    && locals.slot == call.slot && locals.checked == call.checked
    && locals.restamped == call.restamped && locals.removed == call.removed
    && locals.byIndex.Keys == call.checked.Values
  }

  ghost predicate Matches(progress: Progress, phase: Phase) {
    match phase
    case Idle => progress.NoCall?
    case Loaded(call) => progress.Classified? && Reflects(progress.locals, call)
    case Querying(call, previous) =>
      progress.Asking? && Reflects(progress.locals, call) && progress.previousAsked == previous.Some?
    case Passed(call, _, _) => progress.Cleared? && Reflects(progress.locals, call)
    case Selected(call, _, _, keys) =>
      progress.Activating? && Reflects(progress.locals, call) && progress.keys == keys
  }

  class Execution {
    const protection: Protection
    const slotsPerEpoch: nat
    var pending: seq<(seq<Key>, Slot)>
    var progress: Progress
    ghost var state: State

    ghost predicate Valid()
      reads this, protection
    {
      && slotsPerEpoch > 0
      && protection.snapshot == state.snapshot && pending == state.pending && Matches(progress, state.phase)
    }

    constructor (slotsPerEpoch: nat)
      requires slotsPerEpoch > 0
      ensures Valid() && state == Init() && this.slotsPerEpoch == slotsPerEpoch && fresh(protection)
    {
      protection := new Protection();
      this.slotsPerEpoch := slotsPerEpoch;
      pending, progress, state := [], NoCall, Init();
    }

    /** The response to a liveness query: the call goes on unless the query failed or reports a checked key live. */
    method Receive(response: Option<Liveness>, ghost call: Call) returns (passes: bool)
      requires Valid() && progress.Asking? && Reflects(progress.locals, call)
      ensures passes == QueryPasses(call, response)
    {
      if response.None? {
        return false;
      }
      var live, _ := LiveKeys(response.value, progress.locals.byIndex);
      passes := |live| == 0;
    }

    /** Every load, update and response changes the object exactly as the step changes the state. */
    method Perform(step: Step)
      requires Valid() && Enabled(state, step, slotsPerEpoch)
      modifies this, protection
      ensures Valid() && state == Apply(old(state), step, slotsPerEpoch)
    {
      hide Checked, Restamped, Removed, ToActivate, Track, Activate, Restamp, ReportsLive;
      match step {
        case AddLoad(keys, slot) =>
          var filtered := protection.FilterInactive(keys);
          if filtered != [] {
            pending := pending + [(filtered, slot)];
          }
        case AddUpdate(which) =>
          var (keys, slot) := pending[which];
          protection.Add(keys, slot);
          pending := pending[..which] + pending[which + 1..];
        case DetectLoad(slot, indices) =>
          var checked, byIndex, restamped, removed := protection.Classify(slot, indices);
          progress := Classified(Locals(slot, checked, byIndex, restamped, removed));
        case DetectRestamp =>
          protection.ApplyRestamps(progress.locals.restamped, progress.locals.removed);
          progress := Asking(progress.locals, false);
        case QueryPrevious(response) =>
          var passes := Receive(response, state.phase.call);
          progress := if passes then Asking(progress.locals, true) else NoCall;
        case QueryCurrent(response) =>
          var passes := Receive(response, state.phase.call);
          progress := if passes then Cleared(progress.locals) else NoCall;
        case SkipQueries =>
          progress := Cleared(progress.locals);
        case SelectKeys =>
          var locals := progress.locals;
          var keys := protection.SelectToActivate(locals.checked, locals.slot, slotsPerEpoch);
          progress := if keys == {} then NoCall else Activating(locals, keys);
        case ActivateKeys =>
          protection.ActivateSelected(progress.keys);
          progress := NoCall;
        case Drop =>
          progress := NoCall;
      }
      state := Apply(state, step, slotsPerEpoch);
    }
  }

  /** Running the protection through any interleaving ends in the snapshot that the run ends in, in which every active
      key has a reason. */
  method Run(steps: seq<Step>, ghost states: seq<State>, slotsPerEpoch: nat) returns (final: Snapshot)
    requires slotsPerEpoch > 0 && IsRun(states, steps, slotsPerEpoch)
    ensures final == states[|steps|].snapshot && Safe(states[|steps|], slotsPerEpoch)
  {
    hide Apply, Enabled, Safe, Inv, KeepsAdditions;
    var execution := new Execution(slotsPerEpoch);
    for n := 0 to |steps|
      invariant execution.Valid() && fresh(execution) && fresh(execution.protection)
      invariant execution.slotsPerEpoch == slotsPerEpoch && execution.state == states[n]
    {
      execution.Perform(steps[n]);
    }
    RunsAreSafe(states, steps, slotsPerEpoch, |steps|);
    final := execution.protection.snapshot;
  }
}
