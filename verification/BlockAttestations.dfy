/** The attestations of a block from Electra on, from the pool attestations selected for it. */
module BlockAttestations {
  import opened Results
  import opened Arithmetic
  import opened Sequences
  import opened ElectraAggregation
  import opened OnChainAggregates
  import opened AggregateDecoding
  import opened AttestingBits

  // --- Every group can be merged -----------------------------------------------------------------

  /** What conversion delivers: the committee bits name exactly the committee index of the pool attestation. */
  ghost predicate Converts<D, S>(input: Indexed<D, S>, preset: Preset) {
    && |input.attestation.committeeBits| == preset.maxCommitteesPerSlot
    && CommitteeIndices(input.attestation.committeeBits) == [input.committeeIndex]
  }

  ghost predicate AllConvert<D, S>(inputs: seq<Indexed<D, S>>, preset: Preset) {
    forall i | 0 <= i < |inputs| :: Converts(inputs[i], preset)
  }

  /** A group has one data and no committee twice, so it meets what merging and decoding need. */
  lemma GroupIsMergeable<D, S>(inputs: seq<Indexed<D, S>>, preset: Preset, data: D)
    requires AllConvert(inputs, preset)
    ensures var s := GroupOf(inputs, data).attestations;
      && Mergeable(s) && HasCommitteeBits(s, preset)
      && forall i | 0 <= i < |s| :: s[i].data == data
  {
    var members := GroupMembers(inputs, data);
    var s := GroupOf(inputs, data).attestations;
    forall i | 0 <= i < |s|
      ensures members[i] in members && OneCommittee(s[i]) && s[i].data == data
      ensures Committee(s[i]) == inputs[members[i]].committeeIndex
      ensures |s[i].committeeBits| == preset.maxCommitteesPerSlot
    {
      assert members[i] in members && Converts(inputs[members[i]], preset);
    }
    forall i, j | 0 <= i < j < |s| ensures Committee(s[i]) != Committee(s[j]) {
      assert Fresh(inputs, members[j]);
    }
  }

  /** An input that repeats the data and committee of an earlier one is dropped; every other input is in the
      group of its data, and in no other. */
  lemma GroupedUnlessRepeated<D, S>(inputs: seq<Indexed<D, S>>, i: nat)
    requires i < |inputs|
    ensures var groups := Groups(inputs);
      (exists k :: 0 <= k < |groups| && i in GroupMembers(inputs, groups[k].data)) <==> Fresh(inputs, i)
    ensures forall k | 0 <= k < |Groups(inputs)| && i in GroupMembers(inputs, Groups(inputs)[k].data) ::
      Groups(inputs)[k].data == inputs[i].attestation.data
  {
    hide Groups;
    DataHasGroup(inputs, i);
    var k :| 0 <= k < |Groups(inputs)| && Groups(inputs)[k].data == inputs[i].attestation.data;
    assert i in GroupMembers(inputs, Groups(inputs)[k].data) <==> Fresh(inputs, i);
  }

  // --- Packing -----------------------------------------------------------------------------------

  /** The attestations that convert, with their committee indices. */
  function Converted<D, S>(pool: seq<PoolAttestation<D, S>>, preset: Preset): (r: seq<Indexed<D, S>>)
    requires forall i | 0 <= i < |pool| :: pool[i].committeeIndex < preset.maxCommitteesPerSlot
    ensures AllConvert(r, preset)
  {
    if pool == [] then [] else
      var last := pool[|pool| - 1];
      var r := Converted(pool[..|pool| - 1], preset);
      match Convert(last, preset)
      case Ok(attestation) => r + [Indexed(attestation, last.committeeIndex)]
      case Err(_) => r
  }

  /** The aggregate of each group that can be merged, in order. */
  ghost function Packed<D, S>(groups: seq<Group<D, S>>, preset: Preset, decompresses: S -> bool):
    (r: seq<Aggregate<D, S>>)
    requires forall k | 0 <= k < |groups| :: HasCommitteeBits(groups[k].attestations, preset)
    ensures |r| <= |groups|
  {
    if groups == [] then [] else
      var r := Packed(groups[..|groups| - 1], preset, decompresses);
      match OnChainAggregate(groups[|groups| - 1].attestations, preset, decompresses)
      case Ok(aggregate) => r + [aggregate]
      case Err(_) => r
  }

  lemma GroupsCanBePacked<D, S>(inputs: seq<Indexed<D, S>>, preset: Preset)
    requires AllConvert(inputs, preset)
    ensures forall k | 0 <= k < |Groups(inputs)| :: HasCommitteeBits(Groups(inputs)[k].attestations, preset)
  {
    hide Groups, GroupOf, AllConvert, HasCommitteeBits;
    forall k | 0 <= k < |Groups(inputs)| ensures HasCommitteeBits(Groups(inputs)[k].attestations, preset) {
      GroupIsOfItsData(inputs, k);
      GroupIsMergeable(inputs, preset, Groups(inputs)[k].data);
    }
  }

  /** The Electra, Fulu and Gloas part of `build_beacon_block_without_state_root`. The block has the merged attestations
      of the first groups that can be merged, up to the limit; no other group is left out. */
  method PackAttestations<D(==), S(==)>(pool: seq<PoolAttestation<D, S>>, preset: Preset, decompresses: S -> bool)
    returns (attestations: seq<Aggregate<D, S>>, ghost sources: seq<nat>)
    requires forall i | 0 <= i < |pool| :: pool[i].committeeIndex < preset.maxCommitteesPerSlot
    ensures var groups := Groups(Converted(pool, preset));
      && (forall k | 0 <= k < |groups| :: HasCommitteeBits(groups[k].attestations, preset))
      && StrictlyAscending(sources)
      && (forall k: nat :: k in sources <==>
            k < |groups| && CanBeMerged(groups[k].attestations, preset, decompresses))
      && |attestations| == Min(|sources|, preset.maxAttestationsElectra)
      && (forall i | 0 <= i < |attestations| ::
            && sources[i] < |groups|
            && OnChainAggregate(groups[sources[i]].attestations, preset, decompresses) == Ok(attestations[i]))
      && attestations <= Packed(groups, preset, decompresses) && |sources| == |Packed(groups, preset, decompresses)|
  {
    hide Groups, OnChainAggregate, HasCommitteeBits, AllConvert, Convert, CanBeMerged;
    var inputs := [];
    for n := 0 to |pool|
      invariant inputs == Converted(pool[..n], preset)
    {
      assert pool[..n + 1][..n] == pool[..n];
      match Convert(pool[n], preset)
      case Ok(attestation) => inputs := inputs + [Indexed(attestation, pool[n].committeeIndex)];
      case Err(_) =>
    }
    assert pool[..|pool|] == pool;
    var groups := GroupByData(inputs);
    GroupsCanBePacked(inputs, preset);
    attestations := [];
    var n := 0;
    while n < |groups| && |attestations| < preset.maxAttestationsElectra
      invariant n <= |groups| && |attestations| <= preset.maxAttestationsElectra
      invariant attestations == Packed(groups[..n], preset, decompresses)
    {
      var aggregate := ComputeOnChainAggregate(groups[n].attestations, preset, decompresses);
      assert groups[..n + 1][..n] == groups[..n];
      if aggregate.Ok? {
        attestations := attestations + [aggregate.value];
      }
      n := n + 1;
    }
    PackedPrefix(groups, preset, decompresses, n);
    assert groups[..|groups|] == groups;
    sources := PackedMergesGroups(groups, preset, decompresses);
  }

  lemma {:induction false} PackedPrefix<D, S>(
    groups: seq<Group<D, S>>, preset: Preset, decompresses: S -> bool, n: nat)
    requires n <= |groups| && forall k | 0 <= k < |groups| :: HasCommitteeBits(groups[k].attestations, preset)
    ensures Packed(groups[..n], preset, decompresses) <= Packed(groups, preset, decompresses)
    decreases |groups|
  {
    hide OnChainAggregate, HasCommitteeBits;
    if n == |groups| {
      assert groups[..n] == groups;
    } else {
      PackedPrefix(groups[..|groups| - 1], preset, decompresses, n);
      assert groups[..|groups| - 1][..n] == groups[..n];
    }
  }

  lemma PackedStep<D, S>(groups: seq<Group<D, S>>, preset: Preset, decompresses: S -> bool)
    requires forall k | 0 <= k < |groups| :: HasCommitteeBits(groups[k].attestations, preset)
    ensures Packed(groups, preset, decompresses) ==
      if groups == [] then [] else
        var last := |groups| - 1;
        var merged := OnChainAggregate(groups[last].attestations, preset, decompresses);
        Packed(groups[..last], preset, decompresses) + if merged.Ok? then [merged.value] else []
  {
    hide OnChainAggregate, HasCommitteeBits;
  }

  /** Each packed aggregate merges one group, in group order; only groups that cannot be merged are left out. */
  lemma {:induction false} PackedMergesGroups<D, S>(
    groups: seq<Group<D, S>>, preset: Preset, decompresses: S -> bool) returns (sources: seq<nat>)
    requires forall k | 0 <= k < |groups| :: HasCommitteeBits(groups[k].attestations, preset)
    ensures StrictlyAscending(sources) && |sources| == |Packed(groups, preset, decompresses)|
    ensures forall k: nat :: k in sources <==>
      k < |groups| && CanBeMerged(groups[k].attestations, preset, decompresses)
    ensures forall i | 0 <= i < |sources| ::
      && sources[i] < |groups|
      && OnChainAggregate(groups[sources[i]].attestations, preset, decompresses) ==
         Ok(Packed(groups, preset, decompresses)[i])
  {
    hide OnChainAggregate, HasCommitteeBits, CanBeMerged, Packed;
    PackedStep(groups, preset, decompresses);
    if groups == [] {
      sources := [];
    } else {
      var last := |groups| - 1;
      var before := PackedMergesGroups(groups[..last], preset, decompresses);
      MergesExactlyWhen(groups[last].attestations, preset, decompresses);
      AppendAscends(before, last);
      var packed, merged := Packed(groups[..last], preset, decompresses),
        OnChainAggregate(groups[last].attestations, preset, decompresses);
      sources := if merged.Ok? then before + [last] else before;
      forall i | 0 <= i < |sources|
        ensures sources[i] < |groups|
        ensures OnChainAggregate(groups[sources[i]].attestations, preset, decompresses) ==
          Ok(Packed(groups, preset, decompresses)[i])
      {
        if i < |before| {
          assert sources[i] == before[i] && groups[..last][before[i]] == groups[before[i]];
        }
      }
    }
  }

  /** From the pool to the votes of one packed group: the aggregate decodes exactly when all attestations of the
      group do, to the same attesters. */
  lemma PackedGroupKeepsVotes<D, S, V>(
    inputs: seq<Indexed<D, S>>, preset: Preset, decompresses: S -> bool, committees: seq<seq<V>>, k: nat)
    requires AllConvert(inputs, preset) && k < |Groups(inputs)|
    requires FitsCommittees(Groups(inputs)[k].attestations, committees)
    ensures var s := Groups(inputs)[k].attestations;
      HasCommitteeBits(s, preset) && (OnChainAggregate(s, preset, decompresses).Ok? ==>
        var aggregate := OnChainAggregate(s, preset, decompresses).value;
        var decoded := AttestingIndices(committees, aggregate.aggregationBits, aggregate.committeeBits);
        && aggregate.data == Groups(inputs)[k].data
        && (decoded.Ok? <==> forall i | 0 <= i < |s| ::
              AttestingIndices(committees, s[i].aggregationBits, s[i].committeeBits).Ok?)
        && (decoded.Ok? ==> multiset(decoded.value) == multiset(AttestersOf(s, committees))))
  {
    hide Groups, GroupOf, AllConvert, AttestingIndices, AttestersOf, Mergeable, FitsCommittees;
    GroupIsOfItsData(inputs, k);
    var data := Groups(inputs)[k].data;
    GroupIsMergeable(inputs, preset, data);
    var s := Groups(inputs)[k].attestations;
    if OnChainAggregate(s, preset, decompresses).Ok? {
      MergingKeepsVotes(s, preset, decompresses, committees);
      SortIsStable(s, None);
      assert |multiset(SortByCommittee(s))| == |SortByCommittee(s)| && |multiset(s)| == |s|;
      assert SortByCommittee(s)[0] in multiset(s);
    }
  }

  // --- The votes of a block ----------------------------------------------------------------------

  ghost predicate SameVote<D, S>(input: Indexed<D, S>, entry: PoolAttestation<D, S>) {
    && input.attestation.aggregationBits == entry.aggregationBits && input.attestation.data == entry.data
    && input.attestation.signature == entry.signature && input.committeeIndex == entry.committeeIndex
  }

  /** Exactly the pool attestations whose bits fit are converted, in order, without changing a vote. */
  lemma {:induction false} ConvertedInOrder<D, S>(pool: seq<PoolAttestation<D, S>>, preset: Preset)
    returns (positions: seq<nat>)
    requires forall i | 0 <= i < |pool| :: pool[i].committeeIndex < preset.maxCommitteesPerSlot
    ensures StrictlyAscending(positions)
    ensures forall j: nat :: j in positions <==> j < |pool| && |pool[j].aggregationBits| <= preset.maxAttestersPerSlot
    ensures |positions| == |Converted(pool, preset)|
    ensures forall i | 0 <= i < |positions| ::
      positions[i] < |pool| && SameVote(Converted(pool, preset)[i], pool[positions[i]])
  {
    hide AllConvert;
    if pool == [] {
      positions := [];
    } else {
      var n := |pool| - 1;
      positions := ConvertedInOrder(pool[..n], preset);
      assert forall i | 0 <= i < n :: pool[..n][i] == pool[i];
      assert forall i | 0 <= i < |positions| :: positions[i] in positions;
      if |pool[n].aggregationBits| <= preset.maxAttestersPerSlot {
        positions := positions + [n];
      }
    }
  }

  /** The group of an aggregate consists of the entries with its data that are the first of their committee. */
  ghost function GroupVotes<D, S>(inputs: seq<Indexed<D, S>>, data: D): (r: seq<Attestation<D, S>>) {
    Select(inputs, GroupMembers(inputs, data))
  }

  lemma GroupVotesOf<D, S>(inputs: seq<Indexed<D, S>>, k: nat)
    requires k < |Groups(inputs)|
    ensures Groups(inputs)[k].attestations == GroupVotes(inputs, Groups(inputs)[k].data)
  {
    hide Groups;
    GroupIsOfItsData(inputs, k);
  }

  /** Every attestation of the block decodes, with the committees of its own data, exactly when the entries of its group
      do, to the attesters of exactly the entries with its data that were the first of their committee. No two
      attestations have the same data. */
  lemma BlockVotes<D, S, V>(
    inputs: seq<Indexed<D, S>>, preset: Preset, decompresses: S -> bool, committeesOf: D -> seq<seq<V>>)
    requires AllConvert(inputs, preset)
    ensures forall k | 0 <= k < |Groups(inputs)| :: HasCommitteeBits(Groups(inputs)[k].attestations, preset)
    ensures var packed := Packed(Groups(inputs), preset, decompresses);
      && (forall i, j | 0 <= i < j < |packed| :: packed[i].data != packed[j].data)
      && forall i | 0 <= i < |packed| :: IsDecodedByGroup(inputs, committeesOf(packed[i].data), packed[i])
  {
    hide Groups, AllConvert, HasCommitteeBits, OnChainAggregate, Packed, IsDecodedByGroup;
    GroupsCanBePacked(inputs, preset);
    GroupsAreDistinct(inputs);
    var groups := Groups(inputs);
    var packed := Packed(groups, preset, decompresses);
    var sources := PackedMergesGroups(groups, preset, decompresses);
    forall i | 0 <= i < |packed|
      ensures packed[i].data == groups[sources[i]].data
      ensures IsDecodedByGroup(inputs, committeesOf(packed[i].data), packed[i])
    {
      PackedIsDecoded(inputs, preset, decompresses, committeesOf(packed[i].data), sources[i], packed[i]);
    }
  }

  /** If every attestation of its group has as many bits as its committee has members, the aggregate decodes as its
      group does. */
  ghost predicate IsDecodedByGroup<D, S, V>(
    inputs: seq<Indexed<D, S>>, committees: seq<seq<V>>, aggregate: Aggregate<D, S>)
  {
    var s := GroupVotes(inputs, aggregate.data);
    var decoded := AttestingIndices(committees, aggregate.aggregationBits, aggregate.committeeBits);
    FitsCommittees(s, committees) ==>
      && (decoded.Ok? <==> forall i | 0 <= i < |s| ::
            AttestingIndices(committees, s[i].aggregationBits, s[i].committeeBits).Ok?)
      && (decoded.Ok? ==> multiset(decoded.value) == multiset(AttestersOf(s, committees)))
  }

  /** Who votes in the block. If every entry has as many bits as its committee has members, an attestation of the block
      decodes exactly when all entries with its data that were the first of their committee do, and then to exactly the
      validators whose bit is set in one of them. */
  lemma VotersOfBlock<D, S, V>(
    inputs: seq<Indexed<D, S>>, preset: Preset, decompresses: S -> bool, committeesOf: D -> seq<seq<V>>, i: nat, v: V)
    requires AllConvert(inputs, preset)
    requires forall j | 0 <= j < |inputs| ::
      FitsCommittees([inputs[j].attestation], committeesOf(inputs[j].attestation.data))
    ensures forall k | 0 <= k < |Groups(inputs)| :: HasCommitteeBits(Groups(inputs)[k].attestations, preset)
    ensures i < |Packed(Groups(inputs), preset, decompresses)| ==>
      var aggregate := Packed(Groups(inputs), preset, decompresses)[i];
      var committees := committeesOf(aggregate.data);
      var decoded := AttestingIndices(committees, aggregate.aggregationBits, aggregate.committeeBits);
      && (decoded.Ok? <==>
            forall j: nat | IsVoteFor(inputs, aggregate.data, j) :: Decodes(inputs[j].attestation, committees))
      && (decoded.Ok? ==>
            (v in decoded.value <==>
               exists j: nat :: IsVoteFor(inputs, aggregate.data, j) && VotesIn(inputs[j].attestation, committees, v)))
  {
    hide Groups, AllConvert, HasCommitteeBits, Packed, IsDecodedByGroup, FitsCommittees, VotesIn, GroupVotes, IsVoteFor;
    hide OnChainAggregate, AttestingIndices, Decodes;
    GroupsCanBePacked(inputs, preset);
    var packed := Packed(Groups(inputs), preset, decompresses);
    var sources := PackedMergesGroups(Groups(inputs), preset, decompresses);
    if i < |packed| {
      var aggregate, committees := packed[i], committeesOf(packed[i].data);
      PackedIsDecoded(inputs, preset, decompresses, committees, sources[i], aggregate);
      VotesFit(inputs, aggregate.data, committeesOf);
      AggregateDecodes(inputs, committees, aggregate);
      if AttestingIndices(committees, aggregate.aggregationBits, aggregate.committeeBits).Ok? {
        VotersOfAggregate(inputs, committees, aggregate, v);
      }
    }
  }

  /** Entry `j` has the given data and is the first of its committee. */
  ghost predicate IsVoteFor<D, S>(inputs: seq<Indexed<D, S>>, data: D, j: nat) {
    j < |inputs| && inputs[j].attestation.data == data && Fresh(inputs, j)
  }

  ghost predicate Decodes<D, S, V>(attestation: Attestation<D, S>, committees: seq<seq<V>>) {
    AttestingIndices(committees, attestation.aggregationBits, attestation.committeeBits).Ok?
  }

  lemma VotersOfAggregate<D, S, V>(
    inputs: seq<Indexed<D, S>>, committees: seq<seq<V>>, aggregate: Aggregate<D, S>, v: V)
    requires IsDecodedByGroup(inputs, committees, aggregate)
    requires FitsCommittees(GroupVotes(inputs, aggregate.data), committees)
    requires AttestingIndices(committees, aggregate.aggregationBits, aggregate.committeeBits).Ok?
    ensures v in AttestingIndices(committees, aggregate.aggregationBits, aggregate.committeeBits).value <==>
      exists j: nat :: IsVoteFor(inputs, aggregate.data, j) && VotesIn(inputs[j].attestation, committees, v)
  {
    hide AttestingIndices, AttestersOf, FitsCommittees, VotesIn, Fresh, GroupVotes;
    var s, members := GroupVotes(inputs, aggregate.data), GroupMembers(inputs, aggregate.data);
    GroupVotesAreVotes(inputs, aggregate.data);
    var decoded := AttestingIndices(committees, aggregate.aggregationBits, aggregate.committeeBits).value;
    assert v in decoded <==> v in multiset(AttestersOf(s, committees));
    AttestersOfVote(s, committees, v);
    if i :| 0 <= i < |s| && VotesIn(s[i], committees, v) {
      assert IsVoteFor(inputs, aggregate.data, members[i]);
    }
  }

  lemma AggregateDecodes<D, S, V>(inputs: seq<Indexed<D, S>>, committees: seq<seq<V>>, aggregate: Aggregate<D, S>)
    requires IsDecodedByGroup(inputs, committees, aggregate)
    requires FitsCommittees(GroupVotes(inputs, aggregate.data), committees)
    ensures AttestingIndices(committees, aggregate.aggregationBits, aggregate.committeeBits).Ok? <==>
      forall j: nat | IsVoteFor(inputs, aggregate.data, j) :: Decodes(inputs[j].attestation, committees)
  {
    hide AttestingIndices, AttestersOf, FitsCommittees, Fresh, GroupVotes;
    var s, members := GroupVotes(inputs, aggregate.data), GroupMembers(inputs, aggregate.data);
    GroupVotesAreVotes(inputs, aggregate.data);
    if forall j: nat | IsVoteFor(inputs, aggregate.data, j) :: Decodes(inputs[j].attestation, committees) {
      forall i | 0 <= i < |s| ensures Decodes(s[i], committees) {
        assert IsVoteFor(inputs, aggregate.data, members[i]);
      }
    }
  }

  /** The votes of a group are the attestations of the entries with its data that are the first of their committee. */
  lemma GroupVotesAreVotes<D, S>(inputs: seq<Indexed<D, S>>, data: D)
    ensures var s, members := GroupVotes(inputs, data), GroupMembers(inputs, data);
      && |s| == |members|
      && (forall i | 0 <= i < |s| :: IsVoteFor(inputs, data, members[i]) && s[i] == inputs[members[i]].attestation)
      && forall j: nat | IsVoteFor(inputs, data, j) :: exists i :: 0 <= i < |s| && s[i] == inputs[j].attestation
  {
    hide Fresh;
    var s, members := GroupVotes(inputs, data), GroupMembers(inputs, data);
    forall i | 0 <= i < |members| ensures IsVoteFor(inputs, data, members[i]) {
      assert members[i] in members;
    }
    forall j: nat | IsVoteFor(inputs, data, j) ensures exists i :: 0 <= i < |s| && s[i] == inputs[j].attestation {
      assert j in members;
      var i :| 0 <= i < |members| && members[i] == j;
      assert s[i] == inputs[j].attestation;
    }
  }

  lemma PackedIsDecoded<D, S, V>(
    inputs: seq<Indexed<D, S>>, preset: Preset, decompresses: S -> bool, committees: seq<seq<V>>, k: nat,
    aggregate: Aggregate<D, S>)
    requires AllConvert(inputs, preset) && k < |Groups(inputs)|
    requires HasCommitteeBits(Groups(inputs)[k].attestations, preset)
    requires OnChainAggregate(Groups(inputs)[k].attestations, preset, decompresses) == Ok(aggregate)
    ensures aggregate.data == Groups(inputs)[k].data && IsDecodedByGroup(inputs, committees, aggregate)
  {
    hide Groups, AllConvert, HasCommitteeBits, OnChainAggregate, AttestingIndices, AttestersOf, GroupVotes;
    hide FitsCommittees;
    GroupVotesOf(inputs, k);
    PackedGroupHasData(inputs, preset, decompresses, k);
    if FitsCommittees(Groups(inputs)[k].attestations, committees) {
      PackedGroupKeepsVotes(inputs, preset, decompresses, committees, k);
    }
  }

  /** An aggregate has the data of its group. */
  lemma PackedGroupHasData<D, S>(inputs: seq<Indexed<D, S>>, preset: Preset, decompresses: S -> bool, k: nat)
    requires AllConvert(inputs, preset) && k < |Groups(inputs)|
    requires HasCommitteeBits(Groups(inputs)[k].attestations, preset)
    ensures OnChainAggregate(Groups(inputs)[k].attestations, preset, decompresses).Ok? ==>
      OnChainAggregate(Groups(inputs)[k].attestations, preset, decompresses).value.data == Groups(inputs)[k].data
  {
    hide Groups, GroupOf, AllConvert, Mergeable, HasCommitteeBits;
    GroupIsOfItsData(inputs, k);
    GroupIsMergeable(inputs, preset, Groups(inputs)[k].data);
    var s := Groups(inputs)[k].attestations;
    if s != [] {
      SortIsStable(s, None);
      assert |multiset(SortByCommittee(s))| == |SortByCommittee(s)| && |multiset(s)| == |s|;
      assert SortByCommittee(s)[0] in multiset(s);
    }
  }

  /** The group fits if each entry with its data fits the committees of that data. */
  lemma VotesFit<D, S, V>(inputs: seq<Indexed<D, S>>, data: D, committeesOf: D -> seq<seq<V>>)
    requires forall i | 0 <= i < |inputs| && inputs[i].attestation.data == data ::
      FitsCommittees([inputs[i].attestation], committeesOf(data))
    ensures FitsCommittees(GroupVotes(inputs, data), committeesOf(data))
  {
    hide OneCommittee, Committee;
    var members := GroupMembers(inputs, data);
    forall i | 0 <= i < |members|
      ensures members[i] < |inputs| && FitsCommittees([GroupVotes(inputs, data)[i]], committeesOf(data))
    {
      assert members[i] in members;
    }
    assert forall i | 0 <= i < |members| :: [GroupVotes(inputs, data)[i]][0] == GroupVotes(inputs, data)[i];
  }
}
