/** Packing pool attestations into a block from Electra on: grouping by attestation data, and merging each
    group into one on-chain aggregate that covers several committees. */
module ElectraAggregation {
  import opened Results
  import opened Sequences

  datatype PoolAttestation<D, S> =
    PoolAttestation(aggregationBits: seq<bool>, data: D, committeeIndex: nat, signature: S)

  datatype Attestation<D, S> =
    Attestation(aggregationBits: seq<bool>, data: D, committeeBits: seq<bool>, signature: S)

  /** An on-chain aggregate; its BLS signature is the multiset of the signatures aggregated into it. */
  datatype Aggregate<D, S> =
    Aggregate(aggregationBits: seq<bool>, data: D, committeeBits: seq<bool>, signatures: multiset<S>)

  datatype Preset = Preset(maxCommitteesPerSlot: nat, maxAttestersPerSlot: nat, maxAttestationsElectra: nat)

  datatype AggregateError = BitListTooLong(maximum: nat, actual: nat) | NoAttestations | InvalidSignature

  // --- Committee bits ----------------------------------------------------------------------------

  /** `misc::get_committee_indices`. */
  function CommitteeIndices(bits: seq<bool>): (r: seq<nat>)
    ensures StrictlyAscending(r)
    ensures forall i: nat :: i in r <==> i < |bits| && bits[i]
  {
    if bits == [] then [] else
      var last := |bits| - 1;
      var r := CommitteeIndices(bits[..last]);
      assert forall i | 0 <= i < last :: bits[..last][i] == bits[i];
      assert forall i | 0 <= i < |r| :: r[i] in r;
      if bits[last] then r + [last] else r
  }

  /** `operation_pools::convert_to_electra_attestation`. `BitVector::set` panics on a committee index that is
      out of range. */
  function Convert<D, S>(attestation: PoolAttestation<D, S>, preset: Preset):
    (r: Result<Attestation<D, S>, AggregateError>)
    requires attestation.committeeIndex < preset.maxCommitteesPerSlot
    ensures r.Ok? <==> |attestation.aggregationBits| <= preset.maxAttestersPerSlot
    ensures r.Ok? ==> CommitteeIndices(r.value.committeeBits) == [attestation.committeeIndex]
  {
    if |attestation.aggregationBits| > preset.maxAttestersPerSlot then
      Err(BitListTooLong(preset.maxAttestersPerSlot, |attestation.aggregationBits|))
    else
      var committeeBits := seq(preset.maxCommitteesPerSlot, i => i == attestation.committeeIndex);
      AscendingUnique(CommitteeIndices(committeeBits), [attestation.committeeIndex]);
      Ok(Attestation(attestation.aggregationBits, attestation.data, committeeBits, attestation.signature))
  }

  // --- Grouping ----------------------------------------------------------------------------------

  /** A converted attestation with the committee index of the pool attestation it came from. */
  datatype Indexed<D, S> = Indexed(attestation: Attestation<D, S>, committeeIndex: nat)

  datatype Group<D, S> = Group(data: D, indices: set<nat>, attestations: seq<Attestation<D, S>>)

  /** No earlier input has the same attestation data. */
  predicate FirstOfData<D(==), S(==)>(inputs: seq<Indexed<D, S>>, i: nat)
    requires i < |inputs|
  {
    forall j | 0 <= j < i :: inputs[j].attestation.data != inputs[i].attestation.data
  }

  /** No earlier input has the same attestation data and committee index. */
  predicate Fresh<D(==), S(==)>(inputs: seq<Indexed<D, S>>, i: nat)
    requires i < |inputs|
  {
    forall j | 0 <= j < i ::
      inputs[j].attestation.data != inputs[i].attestation.data || inputs[j].committeeIndex != inputs[i].committeeIndex
  }

  /** The positions at which new attestation data appears. */
  function GroupStarts<D(==), S(==)>(inputs: seq<Indexed<D, S>>): (r: seq<nat>)
    ensures StrictlyAscending(r)
    ensures forall i: nat :: i in r <==> i < |inputs| && FirstOfData(inputs, i)
  {
    if inputs == [] then [] else
      var last := |inputs| - 1;
      var r := GroupStarts(inputs[..last]);
      assert forall i: nat | i < last :: FirstOfData(inputs[..last], i) == FirstOfData(inputs, i);
      assert forall i | 0 <= i < |r| :: r[i] in r;
      if FirstOfData(inputs, last) then r + [last] else r
  }

  /** The positions of the inputs with the given data that are not repetitions. */
  function GroupMembers<D(==), S(==)>(inputs: seq<Indexed<D, S>>, data: D): (r: seq<nat>)
    ensures StrictlyAscending(r)
    ensures forall i: nat :: i in r <==> i < |inputs| && inputs[i].attestation.data == data && Fresh(inputs, i)
  {
    if inputs == [] then [] else
      var last := |inputs| - 1;
      var r := GroupMembers(inputs[..last], data);
      assert forall i: nat | i < last :: Fresh(inputs[..last], i) == Fresh(inputs, i);
      assert forall i | 0 <= i < |r| :: r[i] in r;
      if inputs[last].attestation.data == data && Fresh(inputs, last) then r + [last] else r
  }

  function Select<D, S>(inputs: seq<Indexed<D, S>>, positions: seq<nat>): (r: seq<Attestation<D, S>>)
    requires forall i | i in positions :: i < |inputs|
  {
    seq(|positions|, i requires 0 <= i < |positions| =>
      assert positions[i] in positions; inputs[positions[i]].attestation)
  }

  function CommitteesOf<D, S>(inputs: seq<Indexed<D, S>>, positions: seq<nat>): (r: set<nat>)
    requires forall i | i in positions :: i < |inputs|
  {
    set i | i in positions :: inputs[i].committeeIndex
  }

  /** The group of the given data. */
  function GroupOf<D(==), S(==)>(inputs: seq<Indexed<D, S>>, data: D): (r: Group<D, S>) {
    var members := GroupMembers(inputs, data);
    Group(data, CommitteesOf(inputs, members), Select(inputs, members))
  }

  /** The groups of all data, in the order in which the data first appears. */
  function Groups<D(==), S(==)>(inputs: seq<Indexed<D, S>>): (r: seq<Group<D, S>>) {
    var starts := GroupStarts(inputs);
    seq(|starts|, k requires 0 <= k < |starts| =>
      assert starts[k] in starts; GroupOf(inputs, inputs[starts[k]].attestation.data))
  }

  /** A committee is in a group exactly when some input of that data comes from it. */
  lemma CommitteeSeen<D, S>(inputs: seq<Indexed<D, S>>, data: D, committeeIndex: nat)
    ensures committeeIndex in GroupOf(inputs, data).indices <==>
      exists i :: 0 <= i < |inputs| && inputs[i].attestation.data == data && inputs[i].committeeIndex == committeeIndex
  {
    if i: nat :|
      i < |inputs| && inputs[i].attestation.data == data && inputs[i].committeeIndex == committeeIndex &&
      forall j | 0 <= j < i :: inputs[j].attestation.data != data || inputs[j].committeeIndex != committeeIndex
    {
      assert i in GroupMembers(inputs, data);
    } else {
      forall i: nat | i < |inputs|
        ensures inputs[i].attestation.data != data || inputs[i].committeeIndex != committeeIndex
      {
        NoFirstNoneBefore(inputs, data, committeeIndex, i + 1);
      }
    }
  }

  lemma {:induction false} NoFirstNoneBefore<D, S>(inputs: seq<Indexed<D, S>>, data: D, committeeIndex: nat, n: nat)
    requires n <= |inputs|
    requires forall i | 0 <= i < |inputs| ::
      inputs[i].attestation.data != data || inputs[i].committeeIndex != committeeIndex ||
      exists j :: 0 <= j < i && inputs[j].attestation.data == data && inputs[j].committeeIndex == committeeIndex
    ensures forall i | 0 <= i < n ::
      inputs[i].attestation.data != data || inputs[i].committeeIndex != committeeIndex
  {
    if n > 0 {
      NoFirstNoneBefore(inputs, data, committeeIndex, n - 1);
    }
  }

  /** The loop that groups converted attestations by their data. */
  method GroupByData<D(==), S(==)>(inputs: seq<Indexed<D, S>>) returns (results: seq<Group<D, S>>)
    ensures results == Groups(inputs)
  {
    hide GroupOf, GroupStarts, Groups;
    results := [];
    assert inputs[..0] == [];
    NoGroups<D, S>();
    for n := 0 to |inputs|
      invariant results == Groups(inputs[..n])
    {
      var input := inputs[n];
      var at := FindGroup(results, input.attestation.data);
      GroupsStep(inputs[..n], input, at);
      if at < |results| {
        var found := results[at];
        if input.committeeIndex !in found.indices {
          results := results[at := Group(
            found.data, found.indices + {input.committeeIndex}, found.attestations + [input.attestation])];
        }
      } else {
        results := results + [Group(input.attestation.data, {input.committeeIndex}, [input.attestation])];
      }
      assert inputs[..n + 1] == inputs[..n] + [input];
    }
    assert inputs[..|inputs|] == inputs;
  }

  lemma NoGroups<D, S>()
    ensures Groups<D, S>([]) == []
  {
  }

  method FindGroup<D(==), S(==)>(results: seq<Group<D, S>>, data: D) returns (at: nat)
    ensures at <= |results|
    ensures at < |results| ==> results[at].data == data
    ensures forall k | 0 <= k < at :: results[k].data != data
  {
    at := 0;
    while at < |results| && results[at].data != data
      invariant at <= |results|
      invariant forall k | 0 <= k < at :: results[k].data != data
    {
      at := at + 1;
    }
  }

  /** How one more input changes its own group. */
  lemma GroupStep<D, S>(inputs: seq<Indexed<D, S>>, input: Indexed<D, S>, data: D)
    ensures GroupOf(inputs + [input], data) ==
      var group := GroupOf(inputs, data);
      if data != input.attestation.data || input.committeeIndex in group.indices then group
      else Group(data, group.indices + {input.committeeIndex}, group.attestations + [input.attestation])
  {
    hide GroupMembers, Select, CommitteesOf;
    var members := GroupMembers(inputs, data);
    MembersStep(inputs, input, data);
    SelectionsAppend(inputs, input, members);
    assert members + [] == members;
  }

  lemma MembersStep<D, S>(inputs: seq<Indexed<D, S>>, input: Indexed<D, S>, data: D)
    ensures GroupMembers(inputs + [input], data) == GroupMembers(inputs, data) +
      if data != input.attestation.data || input.committeeIndex in GroupOf(inputs, data).indices then [] else [|inputs|]
  {
    var all := inputs + [input];
    assert all[..|inputs|] == inputs;
    CommitteeSeen(inputs, data, input.committeeIndex);
    if data == input.attestation.data {
      assert Fresh(all, |inputs|) <==> input.committeeIndex !in GroupOf(inputs, data).indices;
    }
  }

  lemma SelectionsAppend<D, S>(inputs: seq<Indexed<D, S>>, input: Indexed<D, S>, members: seq<nat>)
    requires forall i | i in members :: i < |inputs|
    ensures var all, more := inputs + [input], members + [|inputs|];
      && Select(all, members) == Select(inputs, members)
      && CommitteesOf(all, members) == CommitteesOf(inputs, members)
      && Select(all, more) == Select(inputs, members) + [input.attestation]
      && CommitteesOf(all, more) == CommitteesOf(inputs, members) + {input.committeeIndex}
  {
    var all, more := inputs + [input], members + [|inputs|];
    assert forall i | 0 <= i < |members| :: members[i] in members;
    assert Select(all, members) == Select(inputs, members);
    assert |inputs| in more && all[|inputs|] == input;
    assert forall i | i in members :: i in more && all[i] == inputs[i];
    assert forall i | i in more :: i in members || i == |inputs|;
  }

  /** Different groups have different data. */
  lemma GroupsAreDistinct<D, S>(inputs: seq<Indexed<D, S>>)
    ensures forall k, l | 0 <= k < l < |Groups(inputs)| :: Groups(inputs)[k].data != Groups(inputs)[l].data
  {
    var starts := GroupStarts(inputs);
    forall k, l | 0 <= k < l < |starts| ensures Groups(inputs)[k].data != Groups(inputs)[l].data {
      assert starts[k] in starts && starts[l] in starts && FirstOfData(inputs, starts[l]);
    }
  }

  lemma GroupsGrow<D, S>(inputs: seq<Indexed<D, S>>, input: Indexed<D, S>)
    ensures var all, before := inputs + [input], Groups(inputs);
      && |Groups(all)| == |before| + (if FirstOfData(all, |inputs|) then 1 else 0)
      && (forall k | 0 <= k < |before| :: Groups(all)[k] == GroupOf(all, before[k].data))
      && (FirstOfData(all, |inputs|) ==> Groups(all)[|before|] == GroupOf(all, input.attestation.data))
  {
    hide GroupOf;
    var all := inputs + [input];
    assert all[..|inputs|] == inputs;
    var starts := GroupStarts(inputs);
    assert forall k | 0 <= k < |starts| :: starts[k] in starts;
    assert GroupStarts(all) == starts + (if FirstOfData(all, |inputs|) then [|inputs|] else []);
    GroupDataAt(inputs);
  }

  lemma GroupDataAt<D, S>(inputs: seq<Indexed<D, S>>)
    ensures forall k | 0 <= k < |GroupStarts(inputs)| ::
      GroupStarts(inputs)[k] in GroupStarts(inputs) &&
      Groups(inputs)[k].data == inputs[GroupStarts(inputs)[k]].attestation.data
  {
  }

  /** How one more input changes the groups, when `at` is where the group with its data was found. */
  lemma GroupsStep<D, S>(inputs: seq<Indexed<D, S>>, input: Indexed<D, S>, at: nat)
    requires at <= |Groups(inputs)|
    requires at < |Groups(inputs)| ==> Groups(inputs)[at].data == input.attestation.data
    requires forall k | 0 <= k < at :: Groups(inputs)[k].data != input.attestation.data
    ensures Groups(inputs + [input]) ==
      var before := Groups(inputs);
      if at == |before| then before + [Group(input.attestation.data, {input.committeeIndex}, [input.attestation])]
      else if input.committeeIndex in before[at].indices then before
      else before[at := Group(before[at].data, before[at].indices + {input.committeeIndex},
                              before[at].attestations + [input.attestation])]
  {
    hide Groups, GroupOf, FirstOfData;
    var before, data := Groups(inputs), input.attestation.data;
    GroupsAreDistinct(inputs);
    GroupsGrow(inputs, input);
    NewDataHasNoGroup(inputs, input);
    GroupStep(inputs, input, data);
    forall k | 0 <= k < |before|
      ensures before[k] == GroupOf(inputs, before[k].data)
      ensures k != at ==> GroupOf(inputs + [input], before[k].data) == before[k]
    {
      GroupIsOfItsData(inputs, k);
      GroupStep(inputs, input, before[k].data);
    }
    var noIndices: set<nat>, noAttestations: seq<Attestation<D, S>> := {}, [];
    assert noIndices + {input.committeeIndex} == {input.committeeIndex};
    assert noAttestations + [input.attestation] == [input.attestation];
  }

  lemma GroupIsOfItsData<D, S>(inputs: seq<Indexed<D, S>>, k: nat)
    requires k < |Groups(inputs)|
    ensures Groups(inputs)[k] == GroupOf(inputs, Groups(inputs)[k].data)
  {
  }

  /** An input starts a new group exactly when no group has its data. */
  lemma NewDataHasNoGroup<D, S>(inputs: seq<Indexed<D, S>>, input: Indexed<D, S>)
    ensures FirstOfData(inputs + [input], |inputs|) <==>
      forall k | 0 <= k < |Groups(inputs)| :: Groups(inputs)[k].data != input.attestation.data
    ensures FirstOfData(inputs + [input], |inputs|) ==>
      GroupOf(inputs, input.attestation.data) == Group(input.attestation.data, {}, [])
  {
    var all, data := inputs + [input], input.attestation.data;
    assert forall i | 0 <= i < |inputs| :: all[i] == inputs[i];
    if FirstOfData(all, |inputs|) {
      GroupDataAt(inputs);
      var members := GroupMembers(inputs, data);
      FirstIsMember(members);
      assert members == [];
    } else {
      var i :| 0 <= i < |inputs| && inputs[i].attestation.data == data;
      DataHasGroup(inputs, i);
    }
  }

  /** The data of every input has a group. */
  lemma {:induction false} DataHasGroup<D, S>(inputs: seq<Indexed<D, S>>, i: nat)
    requires i < |inputs|
    ensures exists k :: 0 <= k < |Groups(inputs)| && Groups(inputs)[k].data == inputs[i].attestation.data
  {
    if FirstOfData(inputs, i) {
      var starts := GroupStarts(inputs);
      assert i in starts;
      var k :| 0 <= k < |starts| && starts[k] == i;
      assert Groups(inputs)[k].data == inputs[i].attestation.data;
    } else {
      var j :| 0 <= j < i && inputs[j].attestation.data == inputs[i].attestation.data;
      DataHasGroup(inputs, j);
    }
  }
}
