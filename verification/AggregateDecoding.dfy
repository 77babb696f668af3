/** Reading an attestation back: who attested in it, and that merging a group changes nobody's vote. */
module AggregateDecoding {
  import opened Results
  import opened Sequences
  import opened ElectraAggregation
  import opened OnChainAggregates

  datatype DecodeError =
    | CommitteeIndexOutOfBounds
    | NoCommitteeAttesters(index: nat)
    | ParticipantsCountMismatch(aggregationBitListLength: nat, participantsCount: nat)

  datatype Walked<V> = Walked(output: seq<V>, committeeOffset: nat)

  // --- Attesting indices -------------------------------------------------------------------------

  /** The members of a committee whose bit, counted from `offset`, is set. Missing bits read as unset. */
  function Attesters<V>(committee: seq<V>, bits: seq<bool>, offset: nat): (r: seq<V>) {
    if committee == [] then [] else
      var last := |committee| - 1;
      var r := Attesters(committee[..last], bits, offset);
      if offset + last < |bits| && bits[offset + last] then r + [committee[last]] else r
  }

  /** The committees of an attestation in ascending order, each taking its share of the bits. */
  function Walk<V>(committees: seq<seq<V>>, bits: seq<bool>, indices: seq<nat>):
    (r: Result<Walked<V>, DecodeError>)
  {
    if indices == [] then Ok(Walked([], 0)) else
      var index := indices[|indices| - 1];
      match Walk(committees, bits, indices[..|indices| - 1])
      case Err(error) => Err(error)
      case Ok(Walked(output, offset)) =>
        if index >= |committees| then Err(CommitteeIndexOutOfBounds) else
          var attesters := Attesters(committees[index], bits, offset);
          if attesters == [] then Err(NoCommitteeAttesters(index))
          else Ok(Walked(output + attesters, offset + |committees[index]|))
  }

  /** Who attested, given the beacon committees of the attestation's slot. */
  function AttestingIndices<V>(committees: seq<seq<V>>, bits: seq<bool>, committeeBits: seq<bool>):
    (r: Result<seq<V>, DecodeError>)
  {
    match Walk(committees, bits, CommitteeIndices(committeeBits))
    case Err(error) => Err(error)
    case Ok(Walked(output, offset)) =>
      if offset == |bits| then Ok(output) else Err(ParticipantsCountMismatch(|bits|, offset))
  }

  /** `get_attesting_indices`: one iterator over the bits runs through all committees. */
  method GetAttestingIndices<V>(committees: seq<seq<V>>, bits: seq<bool>, committeeBits: seq<bool>)
    returns (r: Result<seq<V>, DecodeError>)
    ensures r == AttestingIndices(committees, bits, committeeBits)
  {
    hide CommitteeIndices, Attesters;
    var output := [];
    var committeeIndices := CommitteeIndices(committeeBits);
    var committeeOffset: nat := 0;
    for n := 0 to |committeeIndices|
      invariant Walk(committees, bits, committeeIndices[..n]) == Ok(Walked(output, committeeOffset))
    {
      var index := committeeIndices[n];
      WalkStep(committees, bits, committeeIndices, n);
      if index >= |committees| {
        return Err(CommitteeIndexOutOfBounds);
      }
      var attesters := CommitteeAttesters(committees[index], bits, committeeOffset);
      if |attesters| == 0 {
        return Err(NoCommitteeAttesters(index));
      }
      output := output + attesters;
      committeeOffset := committeeOffset + |committees[index]|;
    }
    assert committeeIndices[..|committeeIndices|] == committeeIndices;
    if committeeOffset != |bits| {
      return Err(ParticipantsCountMismatch(|bits|, committeeOffset));
    }
    r := Ok(output);
  }

  /** The inner loop over one committee. */
  method CommitteeAttesters<V>(committee: seq<V>, bits: seq<bool>, offset: nat) returns (r: seq<V>)
    ensures r == Attesters(committee, bits, offset)
  {
    r := [];
    for n := 0 to |committee|
      invariant r == Attesters(committee[..n], bits, offset)
    {
      assert committee[..n + 1][..n] == committee[..n];
      if offset + n < |bits| && bits[offset + n] {
        r := r + [committee[n]];
      }
    }
    assert committee[..|committee|] == committee;
  }

  /** A walk that fails early fails as a whole, and one more committee is walked after the ones before it. */
  lemma WalkStep<V>(committees: seq<seq<V>>, bits: seq<bool>, indices: seq<nat>, n: nat)
    requires n < |indices| && Walk(committees, bits, indices[..n]).Ok?
    ensures var walked := Walk(committees, bits, indices[..n]).value;
      Walk(committees, bits, indices[..n + 1]) ==
      if indices[n] >= |committees| then Err(CommitteeIndexOutOfBounds) else
        var attesters := Attesters(committees[indices[n]], bits, walked.committeeOffset);
        if attesters == [] then Err(NoCommitteeAttesters(indices[n]))
        else Ok(Walked(walked.output + attesters, walked.committeeOffset + |committees[indices[n]]|))
    ensures Walk(committees, bits, indices[..n + 1]).Err? ==>
      Walk(committees, bits, indices) == Walk(committees, bits, indices[..n + 1])
  {
    assert indices[..n + 1][..n] == indices[..n];
    if Walk(committees, bits, indices[..n + 1]).Err? {
      FailurePersists(committees, bits, indices, n + 1);
    }
  }

  lemma {:induction false} FailurePersists<V>(committees: seq<seq<V>>, bits: seq<bool>, indices: seq<nat>, n: nat)
    requires n <= |indices| && Walk(committees, bits, indices[..n]).Err?
    ensures Walk(committees, bits, indices) == Walk(committees, bits, indices[..n])
    decreases |indices|
  {
    if n == |indices| {
      assert indices[..n] == indices;
    } else {
      var last := |indices| - 1;
      assert indices[..last][..n] == indices[..n];
      FailurePersists(committees, bits, indices[..last], n);
    }
  }

  // --- Merging a group ---------------------------------------------------------------------------

  ghost predicate OneCommittee<D, S>(a: Attestation<D, S>) {
    |CommitteeIndices(a.committeeBits)| == 1
  }

  ghost function Committee<D, S>(a: Attestation<D, S>): nat
    requires OneCommittee(a)
  {
    CommitteeIndices(a.committeeBits)[0]
  }

  /** What grouping delivers: one committee per attestation, no committee twice. */
  ghost predicate Mergeable<D, S>(s: seq<Attestation<D, S>>) {
    && (forall i | 0 <= i < |s| :: OneCommittee(s[i]))
    && (forall i, j | 0 <= i < j < |s| :: Committee(s[i]) != Committee(s[j]))
  }

  ghost predicate ByCommittee<D, S>(s: seq<Attestation<D, S>>) {
    && (forall i | 0 <= i < |s| :: OneCommittee(s[i]))
    && (forall i, j | 0 <= i < j < |s| :: Committee(s[i]) < Committee(s[j]))
  }

  ghost function Committees<D, S>(s: seq<Attestation<D, S>>): (r: seq<nat>)
    requires forall i | 0 <= i < |s| :: OneCommittee(s[i])
  {
    seq(|s|, i requires 0 <= i < |s| => Committee(s[i]))
  }

  lemma KeyIsCommittee<D, S>(a: Attestation<D, S>)
    requires OneCommittee(a)
    ensures FirstCommittee(a) == Some(Committee(a))
  {
  }

  lemma {:induction false} InsertByCommittee<D, S>(s: seq<Attestation<D, S>>, x: Attestation<D, S>)
    requires ByCommittee(s) && OneCommittee(x) && forall i | 0 <= i < |s| :: Committee(s[i]) != Committee(x)
    ensures ByCommittee(Insert(s, x))
  {
    hide CommitteeIndices, FirstCommittee, OneCommittee, Committee, ByCommittee;
    KeyIsCommittee(x);
    if s == [] {
      ByCommitteeAppend(s, x);
    } else {
      var last := |s| - 1;
      ByCommitteeSplit(s);
      KeyIsCommittee(s[last]);
      if AtMost(FirstCommittee(s[last]), FirstCommittee(x)) {
        ByCommitteeAppend(s, x);
      } else {
        InsertByCommittee(s[..last], x);
        InsertPermutes(s[..last], x);
        var r := Insert(s[..last], x);
        ByCommitteeSplit(r);
        assert r[|r| - 1] in multiset(r);
        ByCommitteeAppend(r, s[last]);
      }
    }
  }

  lemma ByCommitteeSplit<D, S>(s: seq<Attestation<D, S>>)
    requires ByCommittee(s)
    ensures forall i | 0 <= i < |s| :: OneCommittee(s[i])
    ensures s != [] ==> ByCommittee(s[..|s| - 1])
    ensures forall i | 0 <= i < |s| - 1 :: Committee(s[i]) < Committee(s[|s| - 1])
  {
    hide OneCommittee, Committee;
  }

  /** The last committee decides where the next one may follow. */
  lemma ByCommitteeAppend<D, S>(s: seq<Attestation<D, S>>, x: Attestation<D, S>)
    requires ByCommittee(s) && OneCommittee(x)
    requires s != [] ==> Committee(s[|s| - 1]) < Committee(x)
    ensures ByCommittee(s + [x])
  {
    hide OneCommittee, Committee;
  }

  lemma {:induction false} SortsByCommittee<D, S>(s: seq<Attestation<D, S>>)
    requires Mergeable(s)
    ensures ByCommittee(SortByCommittee(s))
  {
    hide CommitteeIndices, OneCommittee, Committee, Insert;
    if s != [] {
      var last := |s| - 1;
      SortsByCommittee(s[..last]);
      SortIsStable(s[..last], None);
      var sorted := SortByCommittee(s[..last]);
      forall i | 0 <= i < |sorted| ensures Committee(sorted[i]) != Committee(s[last]) {
        assert sorted[i] in multiset(s[..last]);
      }
      InsertByCommittee(sorted, s[last]);
    }
  }

  lemma CommitteeBitIsSet<D, S>(a: Attestation<D, S>, c: nat)
    requires OneCommittee(a)
    ensures c < |a.committeeBits| && a.committeeBits[c] <==> c == Committee(a)
  {
    var indices := CommitteeIndices(a.committeeBits);
    assert c in indices <==> c == indices[0];
  }

  lemma UnionHasCommittees<D, S>(s: seq<Attestation<D, S>>, preset: Preset, c: nat)
    requires Mergeable(s) && HasCommitteeBits(s, preset)
    ensures c in CommitteeIndices(UnionBits(s, preset)) <==> exists i :: 0 <= i < |s| && Committee(s[i]) == c
  {
    hide CommitteeIndices, Committee, OneCommittee;
    forall i | 0 <= i < |s| ensures c < |s[i].committeeBits| && s[i].committeeBits[c] <==> c == Committee(s[i]) {
      CommitteeBitIsSet(s[i], c);
    }
    if i :| 0 <= i < |s| && Committee(s[i]) == c {
      assert s[i] in s;
      assert AnyHasBit(s, preset, c);
    }
  }

  /** The committees of the aggregate, in ascending order, are those of the sorted inputs. */
  lemma AggregateCommittees<D, S>(s: seq<Attestation<D, S>>, preset: Preset)
    requires Mergeable(s) && HasCommitteeBits(s, preset)
    ensures ByCommittee(SortByCommittee(s)) && multiset(SortByCommittee(s)) == multiset(s)
    ensures CommitteeIndices(UnionBits(s, preset)) == Committees(SortByCommittee(s))
  {
    hide CommitteeIndices, Committee, OneCommittee, UnionBits, SortByCommittee;
    SortsByCommittee(s);
    SortIsStable(s, None);
    var sorted, union := SortByCommittee(s), UnionBits(s, preset);
    forall c: nat ensures c in CommitteeIndices(union) <==> c in Committees(sorted) {
      UnionHasCommittees(s, preset, c);
      SortedHasCommittees(s, sorted, c);
    }
    AscendingUnique(CommitteeIndices(union), Committees(sorted));
  }

  lemma SortedHasCommittees<D, S>(s: seq<Attestation<D, S>>, sorted: seq<Attestation<D, S>>, c: nat)
    requires Mergeable(s) && multiset(s) == multiset(sorted) && forall i | 0 <= i < |sorted| :: OneCommittee(sorted[i])
    ensures c in Committees(sorted) <==> exists i :: 0 <= i < |s| && Committee(s[i]) == c
  {
    hide Committee, OneCommittee;
    if i :| 0 <= i < |s| && Committee(s[i]) == c {
      assert s[i] in multiset(sorted);
      var j :| 0 <= j < |sorted| && sorted[j] == s[i];
      assert Committees(sorted)[j] == c;
    }
    if c in Committees(sorted) {
      var i :| 0 <= i < |sorted| && Committees(sorted)[i] == c;
      assert sorted[i] in multiset(s);
      var j :| 0 <= j < |s| && s[j] == sorted[i];
      assert Committee(s[j]) == c;
    }
  }

  /** Every attestation has as many bits as its committee has members. */
  ghost predicate FitsCommittees<D, S, V>(s: seq<Attestation<D, S>>, committees: seq<seq<V>>) {
    forall i | 0 <= i < |s| ::
      && OneCommittee(s[i]) && Committee(s[i]) < |committees|
      && |s[i].aggregationBits| == |committees[Committee(s[i])]|
  }

  ghost predicate HasAttesters<D, S, V>(a: Attestation<D, S>, committees: seq<seq<V>>)
    requires OneCommittee(a) && Committee(a) < |committees|
  {
    Attesters(committees[Committee(a)], a.aggregationBits, 0) != []
  }

  /** The attesters of several one-committee attestations. */
  ghost function AttestersOf<D, S, V>(s: seq<Attestation<D, S>>, committees: seq<seq<V>>): (r: seq<V>)
    requires FitsCommittees(s, committees)
  {
    if s == [] then [] else
      var last := s[|s| - 1];
      AttestersOf(s[..|s| - 1], committees) + Attesters(committees[Committee(last)], last.aggregationBits, 0)
  }

  /** Only the committee's own share of the bits matters. */
  lemma {:induction false} AttestersOfShare<V>(committee: seq<V>, bits: seq<bool>, offset: nat, share: seq<bool>)
    requires |committee| <= |share| && offset + |share| <= |bits| && bits[offset..offset + |share|] == share
    ensures Attesters(committee, bits, offset) == Attesters(committee, share, 0)
  {
    if committee != [] {
      var last := |committee| - 1;
      AttestersOfShare(committee[..last], bits, offset, share);
      assert bits[offset..offset + |share|][last] == bits[offset + last];
    }
  }

  /** Walking the concatenated bits gives every committee the bits its own attestation had. */
  lemma {:induction false} WalkOfMerged<D, S, V>(s: seq<Attestation<D, S>>, committees: seq<seq<V>>, bits: seq<bool>)
    requires FitsCommittees(s, committees) && Bits(s) <= bits
    ensures var walked := Walk(committees, bits, Committees(s));
      && (walked.Ok? <==> forall i | 0 <= i < |s| :: HasAttesters(s[i], committees))
      && (walked.Ok? ==> walked.value == Walked(AttestersOf(s, committees), |Bits(s)|))
  {
    hide CommitteeIndices, Attesters, Walk, Committee, OneCommittee;
    if s == [] {
      WalkNone(committees, bits);
    } else {
      var last := |s| - 1;
      var indices := Committees(s);
      assert indices[..last] == Committees(s[..last]) && indices[..last + 1] == indices;
      assert Bits(s) == Bits(s[..last]) + s[last].aggregationBits;
      WalkOfMerged(s[..last], committees, bits);
      assert forall i | 0 <= i < last :: s[..last][i] == s[i];
      if Walk(committees, bits, indices[..last]).Ok? {
        WalkStep(committees, bits, indices, last);
        ShareOfLast(s, committees, bits);
      } else {
        FailurePersists(committees, bits, indices, last);
      }
    }
  }

  lemma WalkNone<V>(committees: seq<seq<V>>, bits: seq<bool>)
    ensures Walk(committees, bits, []) == Ok(Walked([], 0))
  {
  }

  lemma ShareOfLast<D, S, V>(s: seq<Attestation<D, S>>, committees: seq<seq<V>>, bits: seq<bool>)
    requires s != [] && FitsCommittees(s, committees) && Bits(s) <= bits
    ensures var last := |s| - 1;
      var committee, share := committees[Committee(s[last])], s[last].aggregationBits;
      Attesters(committee, bits, |Bits(s[..last])|) == Attesters(committee, share, 0)
  {
    hide CommitteeIndices, Attesters;
    var last := |s| - 1;
    var offset, share := |Bits(s[..last])|, s[last].aggregationBits;
    assert Bits(s) == Bits(s[..last]) + share;
    assert bits[offset..offset + |share|] == share;
    AttestersOfShare(committees[Committee(s[last])], bits, offset, share);
  }

  // --- Merging keeps every vote ------------------------------------------------------------------

  lemma FitsPermuted<D, S, V>(s: seq<Attestation<D, S>>, t: seq<Attestation<D, S>>, committees: seq<seq<V>>)
    requires FitsCommittees(s, committees) && multiset(s) == multiset(t)
    ensures FitsCommittees(t, committees)
    ensures (forall i | 0 <= i < |s| :: HasAttesters(s[i], committees)) <==>
      forall i | 0 <= i < |t| :: HasAttesters(t[i], committees)
  {
    hide OneCommittee, Committee, HasAttesters;
    assert forall i | 0 <= i < |t| :: t[i] in multiset(s);
    assert forall i | 0 <= i < |s| :: s[i] in multiset(t);
  }

  lemma AttestersOfAppend<D, S, V>(s: seq<Attestation<D, S>>, x: Attestation<D, S>, committees: seq<seq<V>>)
    requires FitsCommittees(s, committees) && FitsCommittees([x], committees)
    ensures FitsCommittees(s + [x], committees)
    ensures OneCommittee(x) && Committee(x) < |committees|
    ensures AttestersOf(s + [x], committees) ==
      AttestersOf(s, committees) + Attesters(committees[Committee(x)], x.aggregationBits, 0)
  {
    hide OneCommittee, Committee, Attesters;
    assert [x][0] == x;
    assert (s + [x])[..|s|] == s;
  }

  lemma InsertFits<D, S, V>(s: seq<Attestation<D, S>>, x: Attestation<D, S>, committees: seq<seq<V>>)
    requires FitsCommittees(s, committees) && FitsCommittees([x], committees)
    ensures FitsCommittees(Insert(s, x), committees)
  {
  }

  lemma LastFits<D, S, V>(s: seq<Attestation<D, S>>, committees: seq<seq<V>>)
    requires s != [] && FitsCommittees(s, committees)
    ensures FitsCommittees(s[..|s| - 1], committees) && FitsCommittees([s[|s| - 1]], committees)
  {
  }

  lemma {:induction false} InsertKeepsAttesters<D, S, V>(
    s: seq<Attestation<D, S>>, x: Attestation<D, S>, committees: seq<seq<V>>)
    requires FitsCommittees(s, committees) && FitsCommittees([x], committees)
    ensures FitsCommittees(Insert(s, x), committees) && OneCommittee(x) && Committee(x) < |committees|
    ensures multiset(AttestersOf(Insert(s, x), committees)) ==
      multiset(AttestersOf(s, committees)) + multiset(Attesters(committees[Committee(x)], x.aggregationBits, 0))
  {
    hide FirstCommittee, AtMost, OneCommittee, Committee, Attesters, AttestersOf, FitsCommittees;
    InsertFits(s, x, committees);
    AttestersOfAppend(s, x, committees);
    if s != [] && !AtMost(FirstCommittee(s[|s| - 1]), FirstCommittee(x)) {
      var last := |s| - 1;
      LastFits(s, committees);
      InsertKeepsAttesters(s[..last], x, committees);
      AttestersOfAppend(s[..last], s[last], committees);
      AttestersOfAppend(Insert(s[..last], x), s[last], committees);
      assert s == s[..last] + [s[last]];
    }
  }

  lemma {:induction false} SortKeepsAttesters<D, S, V>(s: seq<Attestation<D, S>>, committees: seq<seq<V>>)
    requires FitsCommittees(s, committees)
    ensures FitsCommittees(SortByCommittee(s), committees)
    ensures multiset(AttestersOf(SortByCommittee(s), committees)) == multiset(AttestersOf(s, committees))
  {
    hide OneCommittee, Committee, Attesters, Insert;
    if s != [] {
      var last := |s| - 1;
      assert [s[last]][0] == s[last];
      SortKeepsAttesters(s[..last], committees);
      InsertKeepsAttesters(SortByCommittee(s[..last]), s[last], committees);
    }
  }

  /** Decoding a single input. */
  lemma DecodeOfInput<D, S, V>(a: Attestation<D, S>, committees: seq<seq<V>>)
    requires FitsCommittees([a], committees)
    ensures OneCommittee(a) && Committee(a) < |committees|
    ensures var decoded := AttestingIndices(committees, a.aggregationBits, a.committeeBits);
      && (decoded.Ok? <==> HasAttesters(a, committees))
      && (decoded.Ok? ==> decoded.value == Attesters(committees[Committee(a)], a.aggregationBits, 0))
  {
    hide Attesters, Walk;
    assert [a][0] == a;
    assert [a][..0] == [] && Bits([a][..0]) == [] && Bits([a]) == a.aggregationBits;
    WalkOfMerged([a], committees, a.aggregationBits);
    assert Committees([a]) == CommitteeIndices(a.committeeBits);
    assert AttestersOf([a][..0], committees) == [];
    assert AttestersOf([a], committees) == Attesters(committees[Committee(a)], a.aggregationBits, 0);
  }

  /** The aggregate of a group decodes exactly when all of its inputs do, and then its attesters are those of
      the inputs, each as often as in the inputs. */
  lemma MergingKeepsVotes<D, S, V>(
    s: seq<Attestation<D, S>>, preset: Preset, decompresses: S -> bool, committees: seq<seq<V>>)
    requires Mergeable(s) && HasCommitteeBits(s, preset) && FitsCommittees(s, committees)
    ensures OnChainAggregate(s, preset, decompresses).Ok? ==>
      var aggregate := OnChainAggregate(s, preset, decompresses).value;
      var decoded := AttestingIndices(committees, aggregate.aggregationBits, aggregate.committeeBits);
      && (decoded.Ok? <==> forall i | 0 <= i < |s| ::
            AttestingIndices(committees, s[i].aggregationBits, s[i].committeeBits).Ok?)
      && (decoded.Ok? ==> multiset(decoded.value) == multiset(AttestersOf(s, committees)))
  {
    hide CommitteeIndices, OneCommittee, Committee, Attesters, Walk, Insert, SortByCommittee, UnionBits, Bits;
    hide HasAttesters;
    var sorted := SortByCommittee(s);
    AggregateCommittees(s, preset);
    FitsPermuted(s, sorted, committees);
    SortKeepsAttesters(s, committees);
    WalkOfMerged(sorted, committees, Bits(sorted));
    DecodeOfInputs(s, committees);
  }

  lemma DecodeOfInputs<D, S, V>(s: seq<Attestation<D, S>>, committees: seq<seq<V>>)
    requires FitsCommittees(s, committees)
    ensures forall i | 0 <= i < |s| ::
      AttestingIndices(committees, s[i].aggregationBits, s[i].committeeBits).Ok? <==> HasAttesters(s[i], committees)
  {
    hide AttestingIndices, HasAttesters, OneCommittee, Committee;
    forall i | 0 <= i < |s|
      ensures AttestingIndices(committees, s[i].aggregationBits, s[i].committeeBits).Ok? <==>
        HasAttesters(s[i], committees)
    {
      assert [s[i]][0] == s[i];
      DecodeOfInput(s[i], committees);
    }
  }

  function Size<V>(committees: seq<seq<V>>, index: nat): nat {
    if index < |committees| then |committees[index]| else 0
  }

  /** Where the bits of the committee at `n` start: after those of the committees before it. */
  function Offset<V>(committees: seq<seq<V>>, indices: seq<nat>, n: nat): nat
    requires n <= |indices|
  {
    if n == 0 then 0 else Offset(committees, indices, n - 1) + Size(committees, indices[n - 1])
  }

  lemma {:induction false} CutAt<D, S, V>(s: seq<Attestation<D, S>>, committees: seq<seq<V>>, k: nat)
    requires FitsCommittees(s, committees) && k < |s|
    ensures forall i | 0 <= i < |s| :: Committees(s)[i] < |committees|
    ensures var offset := Offset(committees, Committees(s), k);
      && offset == |Bits(s[..k])| && offset + |s[k].aggregationBits| <= |Bits(s)|
      && Bits(s)[offset..offset + |s[k].aggregationBits|] == s[k].aggregationBits
  {
    hide CommitteeIndices, OneCommittee, Committee;
    OffsetIsLength(s, committees, k);
    var offset := |Bits(s[..k])|;
    assert s[..k + 1][..k] == s[..k];
    assert Bits(s[..k + 1]) == Bits(s[..k]) + s[k].aggregationBits;
    BitsPrefix(s, k + 1);
  }

  lemma {:induction false} OffsetIsLength<D, S, V>(s: seq<Attestation<D, S>>, committees: seq<seq<V>>, k: nat)
    requires FitsCommittees(s, committees) && k <= |s|
    ensures forall i | 0 <= i < |s| :: Committees(s)[i] < |committees|
    ensures Offset(committees, Committees(s), k) == |Bits(s[..k])|
  {
    hide CommitteeIndices, OneCommittee, Committee;
    if k > 0 {
      OffsetIsLength(s, committees, k - 1);
      assert s[..k][..k - 1] == s[..k - 1];
    }
  }

  lemma {:induction false} BitsPrefix<D, S>(s: seq<Attestation<D, S>>, k: nat)
    requires k <= |s|
    ensures Bits(s[..k]) <= Bits(s)
    decreases |s|
  {
    if k == |s| {
      assert s[..k] == s;
    } else {
      BitsPrefix(s[..|s| - 1], k);
      assert s[..|s| - 1][..k] == s[..k];
    }
  }

  /** Walking the set committee bits in ascending order and cutting the aggregation bits at the prefix sums of
      the committee lengths returns each input's bits. */
  lemma CutsReturnInputs<D, S, V>(
    s: seq<Attestation<D, S>>, preset: Preset, decompresses: S -> bool, committees: seq<seq<V>>, i: nat)
    requires Mergeable(s) && HasCommitteeBits(s, preset) && FitsCommittees(s, committees) && i < |s|
    ensures OnChainAggregate(s, preset, decompresses).Ok? ==>
      var aggregate := OnChainAggregate(s, preset, decompresses).value;
      var indices := CommitteeIndices(aggregate.committeeBits);
      && |indices| == |s|
      && (forall i | 0 <= i < |indices| :: indices[i] < |committees|)
      && exists k :: 0 <= k < |indices| && indices[k] == Committee(s[i]) &&
           var offset := Offset(committees, indices, k);
           offset + |committees[indices[k]]| <= |aggregate.aggregationBits| &&
           aggregate.aggregationBits[offset..offset + |committees[indices[k]]|] == s[i].aggregationBits
  {
    hide CommitteeIndices, OneCommittee, Committee, Insert, SortByCommittee, UnionBits, Bits, Offset;
    var sorted := SortByCommittee(s);
    AggregateCommittees(s, preset);
    FitsPermuted(s, sorted, committees);
    assert |multiset(sorted)| == |sorted| && |multiset(s)| == |s|;
    assert s[i] in multiset(sorted);
    var k :| 0 <= k < |sorted| && sorted[k] == s[i];
    CutAt(sorted, committees, k);
    assert Committees(sorted)[k] == Committee(s[i]);
  }
}
