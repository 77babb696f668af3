/**
 Doppelganger protection: keys are tracked until liveness checks have covered two epochs, and only then
 become active.

 The snapshot is a shared cell that is loaded and replaced atomically. `add_tracked_validators` is a load
 followed by an update; `detect_doppelgangers` is a load, an update, up to two awaited liveness queries,
 another load and another update. The steps of one detect call interleave freely with any number of
 additions. Detect calls do not overlap; a call may fail or be dropped at a query.

 The state carries a history next to the snapshot, so that the results can speak about past calls.
*/
module Doppelganger {
  import opened Results
  import opened Sequences

  type Key = nat
  type Slot = nat
  type Index = nat

  const GENESIS_SLOT: Slot := 0
  const CHECK_DURATION_IN_EPOCHS: nat := 2

  /** `indices_by_pubkey`: a key the signer holds, with its index if known. */
  type Indices = map<Key, Option<Index>>

  type Liveness = seq<(Index, bool)>

  datatype Snapshot = Snapshot(active: set<Key>, tracked: map<Key, Option<Slot>>)

  predicate Resolves(indices: Indices, key: Key) {
    key in indices && indices[key].Some?
  }

  // --- What a detect call derives from the snapshot it loads --------------------------------------

  function Checked(tracked: map<Key, Option<Slot>>, indices: Indices): map<Key, Index> {
    map k | k in tracked && Resolves(indices, k) :: indices[k].value
  }

  /** Resolved keys without a stamp get one, unresolved keys lose theirs. */
  function Restamped(tracked: map<Key, Option<Slot>>, indices: Indices, slot: Slot): map<Key, Option<Slot>> {
    map k | k in tracked && k in indices && indices[k].Some? == tracked[k].None? ::
      if indices[k].Some? then Some(slot) else None
  }

  /** Keys the signer no longer holds. */
  function Removed(tracked: map<Key, Option<Slot>>, indices: Indices): set<Key> {
    set k | k in tracked && k !in indices
  }

  predicate ReportsLive(liveness: Liveness, indices: set<Index>) {
    exists i :: 0 <= i < |liveness| && liveness[i].1 && liveness[i].0 in indices
  }

  /** The stamp is at least two epochs old, in saturating arithmetic. */
  predicate WindowElapsed(stamp: Slot, slot: Slot, slotsPerEpoch: nat) {
    SaturatingAdd(stamp, CHECK_DURATION_IN_EPOCHS * slotsPerEpoch) <= slot
  }

  function ToActivate(
    tracked: map<Key, Option<Slot>>, checked: map<Key, Index>, slot: Slot, slotsPerEpoch: nat): set<Key>
  {
    set k | k in tracked && k in checked && tracked[k].Some? && WindowElapsed(tracked[k].value, slot, slotsPerEpoch)
  }

  /** One more tracked key. */
  lemma ClassifyStep(tracked: map<Key, Option<Slot>>, key: Key, stamp: Option<Slot>, indices: Indices, slot: Slot)
    requires key !in tracked
    ensures var all := tracked[key := stamp];
      && Checked(all, indices) ==
         (if Resolves(indices, key) then Checked(tracked, indices)[key := indices[key].value]
          else Checked(tracked, indices))
      && Restamped(all, indices, slot) ==
         (if key in indices && indices[key].Some? == stamp.None?
          then Restamped(tracked, indices, slot)[key := if indices[key].Some? then Some(slot) else None]
          else Restamped(tracked, indices, slot))
      && Removed(all, indices) == Removed(tracked, indices) + (if key in indices then {} else {key})
  {
  }

  lemma ClassifiedByKey(tracked: map<Key, Option<Slot>>, indices: Indices, slot: Slot)
    ensures forall k :: k in Checked(tracked, indices) <==> k in tracked && k in indices && indices[k].Some?
    ensures forall k | k in Checked(tracked, indices) :: Some(Checked(tracked, indices)[k]) == indices[k]
    ensures forall k :: k in Removed(tracked, indices) <==> k in tracked && k !in indices
    ensures forall k :: k in Restamped(tracked, indices, slot) <==>
      k in tracked && k in indices && ((indices[k].Some? && tracked[k].None?) || (indices[k].None? && tracked[k].Some?))
    ensures forall k | k in Restamped(tracked, indices, slot) ::
      Restamped(tracked, indices, slot)[k] == if indices[k].Some? then Some(slot) else None
  {
  }

  lemma NothingClassified(indices: Indices, slot: Slot)
    ensures Checked(map[], indices) == map[] && Restamped(map[], indices, slot) == map[]
    ensures Removed(map[], indices) == {}
  {
  }

  /** The keys that are not active, in the order given. */
  function Inactive(keys: seq<Key>, active: set<Key>): (r: seq<Key>)
    ensures forall k :: k in r <==> k in keys && k !in active
  {
    if keys == [] then [] else
      var last := keys[|keys| - 1];
      Inactive(keys[..|keys| - 1], active) + (if last in active then [] else [last])
  }

  // --- The updates -----------------------------------------------------------------------------

  function KeySet(keys: seq<Key>): set<Key> {
    set k | k in keys
  }

  function Track(s: Snapshot, keys: seq<Key>, slot: Slot): Snapshot {
    s.(tracked := map k | k in s.tracked.Keys + KeySet(keys) :: if k in s.tracked then s.tracked[k] else Some(slot))
  }

  lemma TrackNone(s: Snapshot, keys: seq<Key>, slot: Slot)
    ensures Track(s, keys[..0], slot).tracked == s.tracked
  {
  }

  lemma TrackStep(s: Snapshot, keys: seq<Key>, i: nat, slot: Slot)
    requires i < |keys|
    ensures var before, after := Track(s, keys[..i], slot).tracked, Track(s, keys[..i + 1], slot).tracked;
      after == if keys[i] in before then before else before[keys[i] := Some(slot)]
  {
    assert keys[..i + 1] == keys[..i] + [keys[i]];
    assert KeySet(keys[..i + 1]) == KeySet(keys[..i]) + {keys[i]};
  }

  lemma TrackKeepsActive(s: Snapshot, keys: seq<Key>, slot: Slot)
    ensures Track(s, keys, slot).active == s.active
  {
  }

  function ActivateAtGenesis(s: Snapshot, keys: seq<Key>): Snapshot {
    s.(active := s.active + KeySet(keys))
  }

  function Restamp(s: Snapshot, restamped: map<Key, Option<Slot>>, removed: set<Key>): Snapshot {
    s.(tracked := (s.tracked + restamped) - removed)
  }

  function Activate(s: Snapshot, keys: set<Key>): Snapshot {
    s.(active := s.active + keys, tracked := s.tracked - keys)
  }

  lemma ResolvesMeans(indices: Indices, key: Key)
    ensures Resolves(indices, key) <==> key in indices && indices[key].Some?
  {
  }

  lemma ValuesAfterInsert(m: map<Key, Index>, key: Key, index: Index)
    requires key !in m
    ensures m[key := index].Values == m.Values + {index}
  {
    var after := m[key := index];
    assert forall k | k in m :: k in after && after[k] == m[k];
    assert key in after && after[key] == index;
  }

  // --- The protection as an object ---------------------------------------------------------------

  /** The shared cell. Each method is one atomic load or one atomic update. */
  class Protection {
    var snapshot: Snapshot

    constructor ()
      ensures snapshot == Snapshot({}, map[])
    {
      snapshot := Snapshot({}, map[]);
    }

    /** The load of `add_tracked_validators`: active keys are dropped from the request. */
    method FilterInactive(keys: seq<Key>) returns (filtered: seq<Key>)
      ensures filtered == Inactive(keys, snapshot.active)
      ensures forall k :: k in filtered <==> k in keys && k !in snapshot.active
    {
      filtered := [];
      for i := 0 to |keys|
        invariant filtered == Inactive(keys[..i], snapshot.active)
      {
        assert keys[..i + 1][..i] == keys[..i];
        if keys[i] !in snapshot.active {
          filtered := filtered + [keys[i]];
        }
      }
      assert keys[..|keys|] == keys;
    }

    /** The update of `add_tracked_validators`. */
    method Add(keys: seq<Key>, slot: Slot)
      modifies this
      ensures snapshot == if slot == GENESIS_SLOT then ActivateAtGenesis(old(snapshot), keys)
                          else Track(old(snapshot), keys, slot)
      ensures slot == GENESIS_SLOT ==>
        && (forall k :: k in snapshot.active <==> k in old(snapshot.active) || k in keys)
        && snapshot.tracked == old(snapshot.tracked)
      ensures slot != GENESIS_SLOT ==>
        && snapshot.active == old(snapshot.active)
        && (forall k :: k in snapshot.tracked <==> k in old(snapshot.tracked) || k in keys)
        && forall k | k in snapshot.tracked ::
             snapshot.tracked[k] == if k in old(snapshot.tracked) then old(snapshot.tracked)[k] else Some(slot)
    {
      if slot == GENESIS_SLOT {
        snapshot := snapshot.(active := snapshot.active + KeySet(keys));
        return;
      }
      hide Track;
      var tracked := snapshot.tracked;
      TrackNone(snapshot, keys, slot);
      for i := 0 to |keys|
        invariant tracked == Track(snapshot, keys[..i], slot).tracked && snapshot == old(snapshot)
      {
        TrackStep(snapshot, keys, i, slot);
        if keys[i] !in tracked {
          tracked := tracked[keys[i] := Some(slot)];
        }
      }
      assert keys[..|keys|] == keys;
      TrackKeepsActive(snapshot, keys, slot);
      snapshot := snapshot.(tracked := tracked);
    }

    /** The first load of `detect_doppelgangers`: every tracked key is sorted into the local maps. The
        reverse map keeps one key for each index. */
    method Classify(slot: Slot, indices: Indices)
      returns (checked: map<Key, Index>, byIndex: map<Index, Key>, restamped: map<Key, Option<Slot>>, removed: set<Key>)
      ensures checked == Checked(snapshot.tracked, indices)
      ensures restamped == Restamped(snapshot.tracked, indices, slot)
      ensures removed == Removed(snapshot.tracked, indices)
      ensures byIndex.Keys == checked.Values
      ensures forall i | i in byIndex :: byIndex[i] in checked && checked[byIndex[i]] == i
      ensures forall k :: k in checked <==> k in snapshot.tracked && k in indices && indices[k].Some?
      ensures forall k | k in checked :: Some(checked[k]) == indices[k]
      ensures forall k :: k in removed <==> k in snapshot.tracked && k !in indices
      ensures forall k :: k in restamped <==>
        && k in snapshot.tracked && k in indices
        && ((indices[k].Some? && snapshot.tracked[k].None?) || (indices[k].None? && snapshot.tracked[k].Some?))
      ensures forall k | k in restamped :: restamped[k] == if indices[k].Some? then Some(slot) else None
    {
      hide Checked, Restamped, Removed, Resolves;
      checked, byIndex, restamped, removed := map[], map[], map[], {};
      var rest := snapshot.tracked;
      ghost var done: map<Key, Option<Slot>> := map[];
      NothingClassified(indices, slot);
      while rest.Keys != {}
        invariant rest.Keys !! done.Keys && rest + done == snapshot.tracked
        invariant checked == Checked(done, indices) && restamped == Restamped(done, indices, slot)
        invariant removed == Removed(done, indices)
        invariant checked.Keys <= done.Keys && byIndex.Keys == checked.Values
        invariant forall i | i in byIndex :: byIndex[i] in checked && checked[byIndex[i]] == i
        decreases rest.Keys
      {
        var key :| key in rest;
        var stamp := rest[key];
        ClassifyStep(done, key, stamp, indices, slot);
        ResolvesMeans(indices, key);
        rest, done := rest - {key}, done[key := stamp];
        if key in indices {
          match indices[key]
          case Some(index) =>
            ValuesAfterInsert(checked, key, index);
            checked := checked[key := index];
            byIndex := byIndex[index := key];
            if stamp.None? {
              restamped := restamped[key := Some(slot)];
            }
          case None =>
            if stamp.Some? {
              restamped := restamped[key := None];
            }
        } else {
          removed := removed + {key};
        }
      }
      assert done == snapshot.tracked;
      ClassifiedByKey(done, indices, slot);
    }

    /** The first update of `detect_doppelgangers`. */
    method ApplyRestamps(restamped: map<Key, Option<Slot>>, removed: set<Key>)
      modifies this
      ensures snapshot == Restamp(old(snapshot), restamped, removed)
      ensures snapshot.active == old(snapshot.active)
      ensures forall k :: k in snapshot.tracked <==> (k in old(snapshot.tracked) || k in restamped) && k !in removed
      ensures forall k | k in snapshot.tracked ::
        snapshot.tracked[k] == if k in restamped then restamped[k] else old(snapshot.tracked)[k]
    {
      if restamped != map[] || removed != {} {
        snapshot := snapshot.(tracked := (snapshot.tracked + restamped) - removed);
      } else {
        assert (snapshot.tracked + restamped) - removed == snapshot.tracked;
      }
    }

    /** The load of `activate_validators_that_pass_checks`: every tracked key is tested. */
    method SelectToActivate(checked: map<Key, Index>, slot: Slot, slotsPerEpoch: nat) returns (keys: set<Key>)
      ensures keys == ToActivate(snapshot.tracked, checked, slot, slotsPerEpoch)
      ensures slot < U64_MAX ==> forall k :: k in keys <==>
        && k in checked && k in snapshot.tracked && snapshot.tracked[k].Some?
        && snapshot.tracked[k].value + CHECK_DURATION_IN_EPOCHS * slotsPerEpoch <= slot
    {
      var duration := CHECK_DURATION_IN_EPOCHS * slotsPerEpoch;
      keys := {};
      var rest := snapshot.tracked.Keys;
      while rest != {}
        invariant rest <= snapshot.tracked.Keys
        invariant forall k :: k in keys <==>
          && k in snapshot.tracked && k !in rest && k in checked && snapshot.tracked[k].Some?
          && WindowElapsed(snapshot.tracked[k].value, slot, slotsPerEpoch)
        decreases rest
      {
        var key :| key in rest;
        rest := rest - {key};
        if key in checked {
          match snapshot.tracked[key]
          case Some(stamp) =>
            if SaturatingAdd(stamp, duration) <= slot {
              keys := keys + {key};
            }
          case None =>
        }
      }
    }

    /** Its update: only the activated keys leave the tracked ones. */
    method ActivateSelected(keys: set<Key>)
      modifies this
      ensures snapshot == Activate(old(snapshot), keys)
      ensures forall k :: k in snapshot.active <==> k in old(snapshot.active) || k in keys
      ensures forall k :: k in snapshot.tracked <==> k in old(snapshot.tracked) && k !in keys
      ensures forall k | k in snapshot.tracked :: snapshot.tracked[k] == old(snapshot.tracked)[k]
    {
      if keys == {} {
        return;
      }
      snapshot := Snapshot(snapshot.active + keys, snapshot.tracked - keys);
    }
  }

  /** `detect_doppelgangers_in_epoch`, given the response to its query: the keys reported live, in the order of the
      response. `positions` are those of the live reports of checked indices. */
  method LiveKeys(liveness: Liveness, byIndex: map<Index, Key>) returns (keys: seq<Key>, ghost positions: seq<nat>)
    ensures StrictlyAscending(positions) && |keys| == |positions|
    ensures forall n: nat :: n in positions <==> n < |liveness| && liveness[n].1 && liveness[n].0 in byIndex
    ensures forall i | 0 <= i < |keys| ::
      && positions[i] < |liveness| && liveness[positions[i]].0 in byIndex
      && keys[i] == byIndex[liveness[positions[i]].0]
    ensures keys == [] <==> !ReportsLive(liveness, byIndex.Keys)
  {
    keys, positions := [], [];
    for n := 0 to |liveness|
      invariant StrictlyAscending(positions) && |keys| == |positions|
      invariant forall m: nat :: m in positions <==> m < n && liveness[m].1 && liveness[m].0 in byIndex
      invariant forall i | 0 <= i < |keys| ::
        && positions[i] < n && liveness[positions[i]].0 in byIndex
        && keys[i] == byIndex[liveness[positions[i]].0]
    {
      var (index, live) := liveness[n];
      if live && index in byIndex {
        AppendAscends(positions, n);
        keys, positions := keys + [byIndex[index]], positions + [n];
      }
    }
    if keys != [] {
      assert positions[0] in positions;
    }
  }
}
