/** Merging one group of attestations into an on-chain aggregate, and decoding that aggregate again. */
module OnChainAggregates {
  import opened Results
  import opened ElectraAggregation

  // --- Sorting by committee ----------------------------------------------------------------------

  /** The sort key: the first committee of an attestation, if it has any. */
  function FirstCommittee<D, S>(a: Attestation<D, S>): Option<nat> {
    var indices := CommitteeIndices(a.committeeBits);
    if indices == [] then None else Some(indices[0])
  }

  /** Rust's order on `Option`. */
  predicate AtMost(a: Option<nat>, b: Option<nat>) {
    a.None? || (b.Some? && a.value <= b.value)
  }

  ghost predicate Ordered<D, S>(s: seq<Attestation<D, S>>) {
    forall i, j | 0 <= i < j < |s| :: AtMost(FirstCommittee(s[i]), FirstCommittee(s[j]))
  }

  /** Inserts after every element whose key is not greater, as a stable sort does. */
  function Insert<D, S>(s: seq<Attestation<D, S>>, x: Attestation<D, S>): (r: seq<Attestation<D, S>>) {
    if s == [] || AtMost(FirstCommittee(s[|s| - 1]), FirstCommittee(x)) then s + [x]
    else Insert(s[..|s| - 1], x) + [s[|s| - 1]]
  }

  /** The stable sort `sorted_by_key`. */
  function SortByCommittee<D, S>(s: seq<Attestation<D, S>>): (r: seq<Attestation<D, S>>) {
    if s == [] then [] else Insert(SortByCommittee(s[..|s| - 1]), s[|s| - 1])
  }

  function WithKey<D, S>(s: seq<Attestation<D, S>>, key: Option<nat>): (r: seq<Attestation<D, S>>) {
    if s == [] then [] else
      var last := s[|s| - 1];
      WithKey(s[..|s| - 1], key) + (if FirstCommittee(last) == key then [last] else [])
  }

  lemma {:induction false} InsertPermutes<D, S>(s: seq<Attestation<D, S>>, x: Attestation<D, S>)
    ensures multiset(Insert(s, x)) == multiset(s) + multiset{x}
  {
    hide FirstCommittee, AtMost;
    if s != [] && !AtMost(FirstCommittee(s[|s| - 1]), FirstCommittee(x)) {
      InsertPermutes(s[..|s| - 1], x);
      assert s == s[..|s| - 1] + [s[|s| - 1]];
    }
  }

  lemma {:induction false} InsertOrders<D, S>(s: seq<Attestation<D, S>>, x: Attestation<D, S>)
    requires Ordered(s)
    ensures Ordered(Insert(s, x))
  {
    hide FirstCommittee;
    if s != [] && !AtMost(FirstCommittee(s[|s| - 1]), FirstCommittee(x)) {
      var last := |s| - 1;
      var r := Insert(s[..last], x);
      InsertOrders(s[..last], x);
      InsertPermutes(s[..last], x);
      forall i | 0 <= i < |r| ensures AtMost(FirstCommittee(r[i]), FirstCommittee(s[last])) {
        assert r[i] in multiset(r);
      }
    }
  }

  lemma WithKeyNone<D, S>(key: Option<nat>)
    ensures WithKey<D, S>([], key) == []
  {
  }

  lemma WithKeyAppend<D, S>(s: seq<Attestation<D, S>>, x: Attestation<D, S>, key: Option<nat>)
    ensures WithKey(s + [x], key) == WithKey(s, key) + (if FirstCommittee(x) == key then [x] else [])
  {
  }

  lemma {:induction false} InsertIsStable<D, S>(s: seq<Attestation<D, S>>, x: Attestation<D, S>, key: Option<nat>)
    ensures WithKey(Insert(s, x), key) == WithKey(s, key) + (if FirstCommittee(x) == key then [x] else [])
  {
    hide FirstCommittee, WithKey;
    if s == [] || AtMost(FirstCommittee(s[|s| - 1]), FirstCommittee(x)) {
      WithKeyAppend(s, x, key);
    } else {
      var last := |s| - 1;
      InsertIsStable(s[..last], x, key);
      WithKeyAppend(s[..last], s[last], key);
      WithKeyAppend(Insert(s[..last], x), s[last], key);
      assert s == s[..last] + [s[last]];
    }
  }

  /** The sort orders, permutes and is stable: inputs with equal keys keep their order. */
  lemma {:induction false} SortIsStable<D, S>(s: seq<Attestation<D, S>>, key: Option<nat>)
    ensures Ordered(SortByCommittee(s)) && multiset(SortByCommittee(s)) == multiset(s)
    ensures WithKey(SortByCommittee(s), key) == WithKey(s, key)
  {
    hide WithKey, Insert, FirstCommittee;
    if s == [] {
      WithKeyNone<D, S>(key);
    } else {
      var last := |s| - 1;
      SortIsStable(s[..last], key);
      InsertOrders(SortByCommittee(s[..last]), s[last]);
      InsertPermutes(SortByCommittee(s[..last]), s[last]);
      InsertIsStable(SortByCommittee(s[..last]), s[last], key);
      WithKeyAppend(s[..last], s[last], key);
      assert s == s[..last] + [s[last]];
    }
  }

  // --- The aggregate -----------------------------------------------------------------------------

  /** `BitList::concatenate`, without its length check. */
  function Bits<D, S>(s: seq<Attestation<D, S>>): (r: seq<bool>) {
    if s == [] then [] else Bits(s[..|s| - 1]) + s[|s| - 1].aggregationBits
  }

  function Signatures<D, S>(s: seq<Attestation<D, S>>): (r: multiset<S>) {
    if s == [] then multiset{} else Signatures(s[..|s| - 1]) + multiset{s[|s| - 1].signature}
  }

  ghost predicate HasCommitteeBits<D, S>(s: seq<Attestation<D, S>>, preset: Preset) {
    forall a | a in s :: |a.committeeBits| == preset.maxCommitteesPerSlot
  }

  ghost predicate AnyHasBit<D, S>(s: seq<Attestation<D, S>>, preset: Preset, i: nat)
    requires HasCommitteeBits(s, preset) && i < preset.maxCommitteesPerSlot
  {
    exists a :: a in s && a.committeeBits[i]
  }

  ghost function UnionBits<D, S>(s: seq<Attestation<D, S>>, preset: Preset): (r: seq<bool>)
    requires HasCommitteeBits(s, preset)
  {
    seq(preset.maxCommitteesPerSlot, i requires 0 <= i < preset.maxCommitteesPerSlot => AnyHasBit(s, preset, i))
  }

  /** What a group of attestations is merged into. */
  ghost function OnChainAggregate<D, S>(s: seq<Attestation<D, S>>, preset: Preset, decompresses: S -> bool):
    (r: Result<Aggregate<D, S>, AggregateError>)
    requires HasCommitteeBits(s, preset)
  {
    var bits := Bits(SortByCommittee(s));
    if |bits| > preset.maxAttestersPerSlot then Err(BitListTooLong(preset.maxAttestersPerSlot, |bits|))
    else if s == [] then Err(NoAttestations)
    else if exists a :: a in s && !decompresses(a.signature) then Err(InvalidSignature)
    else
      SortIsStable(s, None);
      assert |multiset(s)| == |s|;
      Ok(Aggregate(bits, SortByCommittee(s)[0].data, UnionBits(s, preset), Signatures(s)))
  }

  // --- When a group can be merged ----------------------------------------------------------------

  function TotalBits<D, S>(s: seq<Attestation<D, S>>): nat {
    if s == [] then 0 else TotalBits(s[..|s| - 1]) + |s[|s| - 1].aggregationBits|
  }

  /** There is something to merge, the bits fit into one bit list, and all signatures decompress. */
  ghost predicate CanBeMerged<D, S>(s: seq<Attestation<D, S>>, preset: Preset, decompresses: S -> bool) {
    s != [] && TotalBits(s) <= preset.maxAttestersPerSlot && forall a | a in s :: decompresses(a.signature)
  }

  lemma {:induction false} TotalIsLength<D, S>(s: seq<Attestation<D, S>>)
    ensures |Bits(s)| == TotalBits(s)
  {
    if s != [] {
      TotalIsLength(s[..|s| - 1]);
    }
  }

  lemma {:induction false} SignaturesAreAll<D, S>(s: seq<Attestation<D, S>>)
    ensures Signatures(s) == multiset(seq(|s|, i requires 0 <= i < |s| => s[i].signature))
  {
    var all := seq(|s|, i requires 0 <= i < |s| => s[i].signature);
    if s != [] {
      var last := |s| - 1;
      SignaturesAreAll(s[..last]);
      assert all == seq(last, i requires 0 <= i < last => s[..last][i].signature) + [s[last].signature];
    }
  }

  /** When a group is merged and why it is not, from its attestations alone. */
  lemma MergesExactlyWhen<D, S>(s: seq<Attestation<D, S>>, preset: Preset, decompresses: S -> bool)
    requires HasCommitteeBits(s, preset)
    ensures var r := OnChainAggregate(s, preset, decompresses);
      && (r.Ok? <==> CanBeMerged(s, preset, decompresses))
      && (r == Err(NoAttestations) <==> s == [])
      && (r == Err(BitListTooLong(preset.maxAttestersPerSlot, TotalBits(s))) <==>
            TotalBits(s) > preset.maxAttestersPerSlot)
      && (r == Err(InvalidSignature) <==>
            && s != [] && TotalBits(s) <= preset.maxAttestersPerSlot
            && exists a :: a in s && !decompresses(a.signature))
  {
    hide Bits, SortByCommittee, UnionBits, Signatures;
    SortKeepsTotals(s);
    TotalIsLength(s);
  }

  /** What a group is merged into: all its bits, committees and signatures, and the data of one of its attestations. */
  lemma MergedHasAll<D, S>(s: seq<Attestation<D, S>>, preset: Preset, decompresses: S -> bool)
    requires HasCommitteeBits(s, preset) && CanBeMerged(s, preset, decompresses)
    ensures var r := OnChainAggregate(s, preset, decompresses);
      && r.Ok? && |r.value.aggregationBits| == TotalBits(s)
      && (exists a :: a in s && a.data == r.value.data)
      && |r.value.committeeBits| == preset.maxCommitteesPerSlot
      && (forall i | 0 <= i < preset.maxCommitteesPerSlot ::
            r.value.committeeBits[i] <==> exists a :: a in s && a.committeeBits[i])
      && r.value.signatures == multiset(seq(|s|, i requires 0 <= i < |s| => s[i].signature))
  {
    hide Bits, SortByCommittee, Signatures;
    MergesExactlyWhen(s, preset, decompresses);
    SortKeepsTotals(s);
    TotalIsLength(s);
    SignaturesAreAll(s);
    SortIsStable(s, None);
    assert |multiset(s)| == |s| && |multiset(SortByCommittee(s))| == |SortByCommittee(s)|;
    assert SortByCommittee(s)[0] in multiset(s);
  }

  lemma {:induction false} InsertKeepsTotals<D, S>(s: seq<Attestation<D, S>>, x: Attestation<D, S>)
    ensures |Bits(Insert(s, x))| == |Bits(s)| + |x.aggregationBits|
    ensures Signatures(Insert(s, x)) == Signatures(s) + multiset{x.signature}
  {
    hide FirstCommittee, AtMost;
    if s == [] || AtMost(FirstCommittee(s[|s| - 1]), FirstCommittee(x)) {
      assert (s + [x])[..|s|] == s;
    } else {
      var last := |s| - 1;
      InsertKeepsTotals(s[..last], x);
      assert Insert(s, x)[..|Insert(s, x)| - 1] == Insert(s[..last], x);
    }
  }

  /** Sorting changes neither the number of bits nor the signatures. */
  lemma {:induction false} SortKeepsTotals<D, S>(s: seq<Attestation<D, S>>)
    ensures |Bits(SortByCommittee(s))| == |Bits(s)| && Signatures(SortByCommittee(s)) == Signatures(s)
  {
    if s != [] {
      SortKeepsTotals(s[..|s| - 1]);
      InsertKeepsTotals(SortByCommittee(s[..|s| - 1]), s[|s| - 1]);
    }
  }

  /** `BlockBuildContext::compute_on_chain_aggregate`. */
  method ComputeOnChainAggregate<D, S(==)>(
    attestations: seq<Attestation<D, S>>, preset: Preset, decompresses: S -> bool)
    returns (r: Result<Aggregate<D, S>, AggregateError>)
    requires HasCommitteeBits(attestations, preset)
    ensures r == OnChainAggregate(attestations, preset, decompresses)
    ensures r.Ok? <==> CanBeMerged(attestations, preset, decompresses)
    ensures r == Err(NoAttestations) <==> attestations == []
  {
    hide Bits, Insert, SortByCommittee, CommitteeIndices, Signatures, UnionBits, TotalBits;
    MergesExactlyWhen(attestations, preset, decompresses);
    var aggregates := SortByCommittee(attestations);
    SortIsStable(attestations, None);
    SortKeepsTotals(attestations);
    assert |multiset(aggregates)| == |aggregates| && |multiset(attestations)| == |attestations|;
    SameMembers(attestations, aggregates, preset);
    var aggregationBits := Concatenate(aggregates);
    if |aggregationBits| > preset.maxAttestersPerSlot {
      return Err(BitListTooLong(preset.maxAttestersPerSlot, |aggregationBits|));
    }
    if |aggregates| == 0 {
      return Err(NoAttestations);
    }
    var data := aggregates[0].data;
    var merged := MergeCommitteesAndSignatures(aggregates, preset, decompresses);
    if merged.None? {
      ghost var a :| a in aggregates && !decompresses(a.signature);
      assert a in multiset(attestations);
      return Err(InvalidSignature);
    }
    var (committeeBits, signature) := merged.value;
    r := Ok(Aggregate(aggregationBits, data, committeeBits, signature));
  }

  method Concatenate<D, S>(aggregates: seq<Attestation<D, S>>) returns (bits: seq<bool>)
    ensures bits == Bits(aggregates)
  {
    bits := [];
    for n := 0 to |aggregates|
      invariant bits == Bits(aggregates[..n])
    {
      bits := bits + aggregates[n].aggregationBits;
      assert aggregates[..n + 1][..n] == aggregates[..n];
    }
    assert aggregates[..|aggregates|] == aggregates;
  }

  method MergeCommitteesAndSignatures<D, S(==)>(
    aggregates: seq<Attestation<D, S>>, preset: Preset, decompresses: S -> bool)
    returns (r: Option<(seq<bool>, multiset<S>)>)
    requires HasCommitteeBits(aggregates, preset)
    ensures r.None? <==> exists a :: a in aggregates && !decompresses(a.signature)
    ensures r.Some? ==> r.value == (UnionBits(aggregates, preset), Signatures(aggregates))
  {
    hide CommitteeIndices, UnionBits, Signatures;
    var committeeBits := seq(preset.maxCommitteesPerSlot, _ => false);
    var signature: multiset<S> := multiset{};
    assert aggregates[..0] == [];
    NothingMerged<D, S>(preset);
    for n := 0 to |aggregates|
      invariant signature == Signatures(aggregates[..n])
      invariant HasCommitteeBits(aggregates[..n], preset) && committeeBits == UnionBits(aggregates[..n], preset)
      invariant forall a | a in aggregates[..n] :: decompresses(a.signature)
    {
      assert aggregates[..n + 1] == aggregates[..n] + [aggregates[n]];
      UnionStep(aggregates[..n], aggregates[n], preset);
      committeeBits := SetCommitteeBits(committeeBits, aggregates[n].committeeBits);
      if !decompresses(aggregates[n].signature) {
        return None;
      }
      signature := signature + multiset{aggregates[n].signature};
    }
    assert aggregates[..|aggregates|] == aggregates;
    r := Some((committeeBits, signature));
  }

  /** The loop that sets the bits of one attestation's committees. */
  method SetCommitteeBits(committeeBits: seq<bool>, added: seq<bool>) returns (r: seq<bool>)
    requires |committeeBits| == |added|
    ensures |r| == |added| && forall i | 0 <= i < |r| :: r[i] == (committeeBits[i] || added[i])
  {
    r := committeeBits;
    var indices := CommitteeIndices(added);
    for m := 0 to |indices|
      invariant |r| == |added| && forall i: nat | i < |r| :: r[i] == (committeeBits[i] || i in indices[..m])
    {
      assert indices[m] in indices;
      r := r[indices[m] := true];
      assert indices[..m + 1] == indices[..m] + [indices[m]];
    }
    assert indices[..|indices|] == indices;
  }

  lemma SameMembers<D, S>(a: seq<Attestation<D, S>>, b: seq<Attestation<D, S>>, preset: Preset)
    requires multiset(a) == multiset(b) && HasCommitteeBits(a, preset)
    ensures forall x :: x in a <==> x in b
    ensures HasCommitteeBits(b, preset) && UnionBits(a, preset) == UnionBits(b, preset)
  {
    forall x ensures x in a <==> x in b {
      assert x in multiset(a) <==> x in multiset(b);
    }
    forall i: nat | i < preset.maxCommitteesPerSlot ensures AnyHasBit(a, preset, i) == AnyHasBit(b, preset, i) {
    }
  }

  lemma NothingMerged<D, S>(preset: Preset)
    ensures UnionBits<D, S>([], preset) == seq(preset.maxCommitteesPerSlot, _ => false)
    ensures Signatures<D, S>([]) == multiset{}
  {
  }

  lemma UnionStep<D, S>(s: seq<Attestation<D, S>>, x: Attestation<D, S>, preset: Preset)
    requires HasCommitteeBits(s, preset) && |x.committeeBits| == preset.maxCommitteesPerSlot
    ensures HasCommitteeBits(s + [x], preset)
    ensures |UnionBits(s, preset)| == |UnionBits(s + [x], preset)| == preset.maxCommitteesPerSlot
    ensures forall i: nat | i < preset.maxCommitteesPerSlot ::
      UnionBits(s + [x], preset)[i] == (UnionBits(s, preset)[i] || x.committeeBits[i])
    ensures Signatures(s + [x]) == Signatures(s) + multiset{x.signature}
  {
  }
}
