/** Who attests, in terms of the bits alone: when an attestation can be decoded, why it cannot, and whom it names. */
module AttestingBits {
  import opened Results
  import opened Sequences
  import opened ElectraAggregation
  import opened AggregateDecoding

  // --- One committee -----------------------------------------------------------------------------

  /** The attesters of a committee are exactly its members with a set bit, in the order of the committee. */
  lemma {:induction false} AttestersHaveBits<V>(committee: seq<V>, bits: seq<bool>, offset: nat)
    returns (positions: seq<nat>)
    ensures StrictlyAscending(positions)
    ensures forall k: nat ::
      k in positions <==> k < |committee| && offset + k < |bits| && bits[offset + k]
    ensures |Attesters(committee, bits, offset)| == |positions|
    ensures forall i | 0 <= i < |positions| ::
      positions[i] < |committee| && Attesters(committee, bits, offset)[i] == committee[positions[i]]
  {
    hide Attesters;
    if committee == [] {
      positions := [];
      NoAttesters<V>(bits, offset);
    } else {
      var last := |committee| - 1;
      var before := AttestersHaveBits(committee[..last], bits, offset);
      AttestersNext(committee, bits, offset);
      AppendAscends(before, last);
      positions := if offset + last < |bits| && bits[offset + last] then before + [last] else before;
    }
  }

  lemma NoAttesters<V>(bits: seq<bool>, offset: nat)
    ensures Attesters<V>([], bits, offset) == []
  {
  }

  lemma AttestersNext<V>(committee: seq<V>, bits: seq<bool>, offset: nat)
    requires committee != []
    ensures var last := |committee| - 1;
      Attesters(committee, bits, offset) == Attesters(committee[..last], bits, offset) +
      if offset + last < |bits| && bits[offset + last] then [committee[last]] else []
  {
  }

  // --- All committees ----------------------------------------------------------------------------

  lemma {:induction false} OffsetOfPrefix<V>(committees: seq<seq<V>>, indices: seq<nat>, m: nat, n: nat)
    requires n <= m <= |indices|
    ensures Offset(committees, indices[..m], n) == Offset(committees, indices, n)
  {
    if n > 0 {
      OffsetOfPrefix(committees, indices, m, n - 1);
    }
  }

  /** There is a committee at `n`, and one of its bits is set. */
  ghost predicate HasAttester<V>(committees: seq<seq<V>>, bits: seq<bool>, indices: seq<nat>, n: nat)
    requires n < |indices|
  {
    var before := Offset(committees, indices, n);
    && indices[n] < |committees|
    && exists p :: before <= p < before + |committees[indices[n]]| && p < |bits| && bits[p]
  }

  ghost predicate HaveAttesters<V>(committees: seq<seq<V>>, bits: seq<bool>, indices: seq<nat>, n: nat)
    requires n <= |indices|
  {
    forall m | 0 <= m < n :: HasAttester(committees, bits, indices, m)
  }

  /** The members of the given committees one after another. */
  function Members<V>(committees: seq<seq<V>>, indices: seq<nat>): (r: seq<V>)
    requires forall i | 0 <= i < |indices| :: indices[i] < |committees|
  {
    if indices == [] then [] else
      var last := |indices| - 1;
      Members(committees, indices[..last]) + committees[indices[last]]
  }

  /** The bits of a committee start after those of the committees before it. */
  lemma {:induction false} MembersAt<V>(committees: seq<seq<V>>, indices: seq<nat>, n: nat, k: nat)
    requires forall i | 0 <= i < |indices| :: indices[i] < |committees|
    requires n < |indices| && k < |committees[indices[n]]|
    ensures |Members(committees, indices)| == Offset(committees, indices, |indices|)
    ensures Offset(committees, indices, n) + k < |Members(committees, indices)|
    ensures Members(committees, indices)[Offset(committees, indices, n) + k] == committees[indices[n]][k]
  {
    var last := |indices| - 1;
    MembersCount(committees, indices);
    MembersCount(committees, indices[..last]);
    OffsetOfPrefix(committees, indices, last, last);
    OffsetOfPrefix(committees, indices, last, if n < last then n else last);
    if n < last {
      MembersAt(committees, indices[..last], n, k);
    }
  }

  lemma {:induction false} MembersCount<V>(committees: seq<seq<V>>, indices: seq<nat>)
    requires forall i | 0 <= i < |indices| :: indices[i] < |committees|
    ensures |Members(committees, indices)| == Offset(committees, indices, |indices|)
  {
    if indices != [] {
      var last := |indices| - 1;
      MembersCount(committees, indices[..last]);
      OffsetOfPrefix(committees, indices, last, last);
    }
  }

  /** One more committee: it has an attester exactly when one of its bits is set. */
  lemma AttestersOfNext<V>(committees: seq<seq<V>>, bits: seq<bool>, indices: seq<nat>, n: nat)
    requires n < |indices| && indices[n] < |committees|
    ensures Attesters(committees[indices[n]], bits, Offset(committees, indices, n)) != [] <==>
      HasAttester(committees, bits, indices, n)
  {
    hide Attesters, Offset;
    var committee, before := committees[indices[n]], Offset(committees, indices, n);
    var positions := AttestersHaveBits(committee, bits, before);
    if positions != [] {
      assert positions[0] in positions;
      assert bits[before + positions[0]];
    }
    if HasAttester(committees, bits, indices, n) {
      var p :| before <= p < before + |committee| && p < |bits| && bits[p];
      assert before + (p - before) == p;
      assert p - before in positions;
    }
  }

  /** The first committee without an attester decides the error. */
  ghost predicate FailsAt<V>(
    committees: seq<seq<V>>, bits: seq<bool>, indices: seq<nat>, n: nat, error: DecodeError)
  {
    && n < |indices| && HaveAttesters(committees, bits, indices, n) && !HasAttester(committees, bits, indices, n)
    && error == if indices[n] >= |committees| then CommitteeIndexOutOfBounds else NoCommitteeAttesters(indices[n])
  }

  lemma {:induction false} WalkOutcome<V>(committees: seq<seq<V>>, bits: seq<bool>, indices: seq<nat>, n: nat)
    requires n <= |indices|
    ensures var walked := Walk(committees, bits, indices[..n]);
      && (walked.Ok? <==> HaveAttesters(committees, bits, indices, n))
      && (walked.Ok? ==> walked.value.committeeOffset == Offset(committees, indices, n))
      && (walked.Err? ==> exists m :: FailsAt(committees, bits, indices, m, walked.error))
  {
    hide Attesters, Walk, HasAttester;
    if n == 0 {
      WalkNone(committees, bits);
      assert indices[..0] == [];
    } else {
      WalkOutcome(committees, bits, indices, n - 1);
      if Walk(committees, bits, indices[..n - 1]).Ok? {
        WalkStep(committees, bits, indices, n - 1);
        if indices[n - 1] < |committees| {
          AttestersOfNext(committees, bits, indices, n - 1);
        } else {
          NoSuchCommittee(committees, bits, indices, n - 1);
        }
        if Walk(committees, bits, indices[..n]).Err? {
          assert FailsAt(committees, bits, indices, n - 1, Walk(committees, bits, indices[..n]).error);
        }
      } else {
        assert indices[..n][..n - 1] == indices[..n - 1];
        FailurePersists(committees, bits, indices[..n], n - 1);
      }
    }
  }

  lemma NoSuchCommittee<V>(committees: seq<seq<V>>, bits: seq<bool>, indices: seq<nat>, n: nat)
    requires n < |indices| && indices[n] >= |committees|
    ensures !HasAttester(committees, bits, indices, n)
  {
  }

  /** An attestation can be decoded if and only if every committee it names exists and has an attester, and the bits are
      as many as the committees have members. Otherwise the first committee that fails decides the error, or the number
      of members. */
  lemma DecodesExactlyWhen<V>(committees: seq<seq<V>>, bits: seq<bool>, committeeBits: seq<bool>)
    ensures var indices := CommitteeIndices(committeeBits);
      var members := Offset(committees, indices, |indices|);
      var decoded := AttestingIndices(committees, bits, committeeBits);
      && (decoded.Ok? <==> HaveAttesters(committees, bits, indices, |indices|) && members == |bits|)
      && (decoded.Err? ==>
            || (exists n :: FailsAt(committees, bits, indices, n, decoded.error))
            || (HaveAttesters(committees, bits, indices, |indices|) && members != |bits|
                && decoded.error == ParticipantsCountMismatch(|bits|, members)))
  {
    hide CommitteeIndices, Walk, FailsAt, HaveAttesters, Offset;
    var indices := CommitteeIndices(committeeBits);
    assert indices[..|indices|] == indices;
    WalkOutcome(committees, bits, indices, |indices|);
  }

  // --- Whom it names -----------------------------------------------------------------------------

  /** The attesters walked so far are the members with a set bit, counted over all committees. */
  ghost predicate ListsSetBits<V>(members: seq<V>, bits: seq<bool>, positions: seq<nat>, output: seq<V>) {
    && StrictlyAscending(positions)
    && (forall k: nat :: k in positions <==> k < |members| && k < |bits| && bits[k])
    && |output| == |positions|
    && (forall i | 0 <= i < |positions| :: positions[i] < |members| && output[i] == members[positions[i]])
  }

  function Shifted(positions: seq<nat>, offset: nat): (r: seq<nat>)
    ensures |r| == |positions|
  {
    seq(|positions|, i requires 0 <= i < |positions| => offset + positions[i])
  }

  lemma ShiftedHas(positions: seq<nat>, offset: nat, k: nat)
    ensures k in Shifted(positions, offset) <==> k >= offset && k - offset in positions
  {
    if k >= offset && k - offset in positions {
      var i :| 0 <= i < |positions| && positions[i] == k - offset;
      assert Shifted(positions, offset)[i] == k;
    }
  }

  /** One more committee. */
  lemma ListsNext<V>(
    members: seq<V>, bits: seq<bool>, positions: seq<nat>, output: seq<V>, committee: seq<V>)
    returns (all: seq<nat>)
    requires ListsSetBits(members, bits, positions, output)
    ensures ListsSetBits(members + committee, bits, all, output + Attesters(committee, bits, |members|))
  {
    hide Attesters;
    var offset := |members|;
    var added := AttestersHaveBits(committee, bits, offset);
    all := positions + Shifted(added, offset);
    assert forall i | 0 <= i < |positions| :: positions[i] in positions;
    forall k: nat
      ensures k in all <==> k < |members + committee| && k < |bits| && bits[k]
    {
      ShiftedHas(added, offset, k);
      if k >= offset {
        assert offset + (k - offset) == k;
        assert k - offset in added <==> k - offset < |committee| && k < |bits| && bits[offset + (k - offset)];
      }
    }
  }

  lemma {:induction false} WalkListsSetBits<V>(
    committees: seq<seq<V>>, bits: seq<bool>, indices: seq<nat>, n: nat) returns (positions: seq<nat>)
    requires n <= |indices| && Walk(committees, bits, indices[..n]).Ok?
    ensures forall i | 0 <= i < n :: indices[i] < |committees|
    ensures ListsSetBits(
              Members(committees, indices[..n]), bits, positions, Walk(committees, bits, indices[..n]).value.output)
  {
    hide Attesters, Walk, HasAttester, ListsSetBits, Offset;
    WalkOutcome(committees, bits, indices, n);
    NamedExist(committees, bits, indices, n);
    if n == 0 {
      WalkNone(committees, bits);
      assert indices[..0] == [];
      positions := [];
      ListsNothing<V>(bits);
    } else {
      WalkOutcome(committees, bits, indices, n - 1);
      var before := WalkListsSetBits(committees, bits, indices, n - 1);
      WalkStep(committees, bits, indices, n - 1);
      assert indices[..n][..n - 1] == indices[..n - 1];
      MembersCount(committees, indices[..n - 1]);
      OffsetOfPrefix(committees, indices, n - 1, n - 1);
      positions := ListsNext(
        Members(committees, indices[..n - 1]), bits, before, Walk(committees, bits, indices[..n - 1]).value.output,
        committees[indices[n - 1]]);
    }
  }

  lemma ListsNothing<V>(bits: seq<bool>)
    ensures ListsSetBits<V>([], bits, [], [])
  {
  }

  lemma NamedExist<V>(committees: seq<seq<V>>, bits: seq<bool>, indices: seq<nat>, n: nat)
    requires n <= |indices| && HaveAttesters(committees, bits, indices, n)
    ensures forall i | 0 <= i < n :: indices[i] < |committees|
  {
    forall i | 0 <= i < n ensures indices[i] < |committees| {
      assert HasAttester(committees, bits, indices, i);
    }
  }

  /** A decoded attestation names exactly the members with a set bit, in order, where the members of its committees are
      counted one committee after another. */
  lemma DecodedHaveBits<V>(committees: seq<seq<V>>, bits: seq<bool>, committeeBits: seq<bool>)
    returns (positions: seq<nat>)
    requires AttestingIndices(committees, bits, committeeBits).Ok?
    ensures var indices := CommitteeIndices(committeeBits);
      var output := AttestingIndices(committees, bits, committeeBits).value;
      && (forall i | 0 <= i < |indices| :: indices[i] < |committees|)
      && |Members(committees, indices)| == |bits|
      && StrictlyAscending(positions)
      && (forall k: nat :: k in positions <==> k < |bits| && bits[k])
      && |output| == |positions|
      && (forall i | 0 <= i < |positions| ::
            positions[i] < |bits| && output[i] == Members(committees, indices)[positions[i]])
  {
    hide CommitteeIndices, Walk, Offset, Members;
    var indices := CommitteeIndices(committeeBits);
    assert indices[..|indices|] == indices;
    positions := WalkListsSetBits(committees, bits, indices, |indices|);
    WalkOutcome(committees, bits, indices, |indices|);
    MembersCount(committees, indices);
  }

  /** A validator is named exactly when it is a member of a named committee and its own bit is set. */
  lemma NamedExactlyWhen<V>(committees: seq<seq<V>>, bits: seq<bool>, committeeBits: seq<bool>, v: V)
    requires AttestingIndices(committees, bits, committeeBits).Ok?
    ensures var indices := CommitteeIndices(committeeBits);
      v in AttestingIndices(committees, bits, committeeBits).value <==>
      exists n, k :: 0 <= n < |indices| && indices[n] < |committees| && 0 <= k < |committees[indices[n]]|
                     && committees[indices[n]][k] == v && HasBit(bits, Offset(committees, indices, n) + k)
  {
    hide CommitteeIndices, AttestingIndices, Offset, Members;
    var indices := CommitteeIndices(committeeBits);
    var output := AttestingIndices(committees, bits, committeeBits).value;
    var positions := DecodedHaveBits(committees, bits, committeeBits);
    if v in output {
      var i :| 0 <= i < |output| && output[i] == v;
      assert positions[i] in positions;
      var n, k := SeatOf(committees, indices, positions[i]);
      MembersAt(committees, indices, n, k);
      assert committees[indices[n]][k] == v && HasBit(bits, Offset(committees, indices, n) + k);
    }
    if n, k :| 0 <= n < |indices| && indices[n] < |committees| && 0 <= k < |committees[indices[n]]|
                && committees[indices[n]][k] == v && HasBit(bits, Offset(committees, indices, n) + k) {
      MembersAt(committees, indices, n, k);
      var p := Offset(committees, indices, n) + k;
      assert p in positions;
      var i :| 0 <= i < |positions| && positions[i] == p;
      assert output[i] == v;
    }
  }

  ghost predicate HasBit(bits: seq<bool>, p: nat) {
    p < |bits| && bits[p]
  }

  /** Every bit belongs to a member of one of the committees. */
  lemma {:induction false} SeatOf<V>(committees: seq<seq<V>>, indices: seq<nat>, p: nat) returns (n: nat, k: nat)
    requires forall i | 0 <= i < |indices| :: indices[i] < |committees|
    requires p < |Members(committees, indices)|
    ensures n < |indices| && k < |committees[indices[n]]| && p == Offset(committees, indices, n) + k
  {
    var last := |indices| - 1;
    MembersCount(committees, indices[..last]);
    OffsetOfPrefix(committees, indices, last, last);
    if p < |Members(committees, indices[..last])| {
      n, k := SeatOf(committees, indices[..last], p);
      OffsetOfPrefix(committees, indices, last, n);
    } else {
      n, k := last, p - |Members(committees, indices[..last])|;
    }
  }

  // --- The votes of a group ----------------------------------------------------------------------

  /** The validator is a member of the attestation's committee, and its bit is set. */
  ghost predicate VotesIn<D, S, V>(a: Attestation<D, S>, committees: seq<seq<V>>, v: V) {
    && OneCommittee(a) && Committee(a) < |committees|
    && exists k :: 0 <= k < |committees[Committee(a)]| && committees[Committee(a)][k] == v
                   && HasBit(a.aggregationBits, k)
  }

  lemma AttesterHasBit<V>(committee: seq<V>, bits: seq<bool>, v: V)
    ensures v in Attesters(committee, bits, 0) <==>
      exists k :: 0 <= k < |committee| && committee[k] == v && HasBit(bits, k)
  {
    hide Attesters;
    var attesters := Attesters(committee, bits, 0);
    var positions := AttestersHaveBits(committee, bits, 0);
    if v in attesters {
      var i :| 0 <= i < |attesters| && attesters[i] == v;
      assert positions[i] in positions;
      assert HasBit(bits, positions[i]);
    }
    if k: nat :| k < |committee| && committee[k] == v && HasBit(bits, k) {
      assert 0 + k == k;
      assert k in positions;
      var i :| 0 <= i < |positions| && positions[i] == k;
      assert attesters[i] == v;
    }
  }

  /** The attesters of several attestations are the validators who vote in one of them. */
  lemma {:induction false} AttestersOfVote<D, S, V>(s: seq<Attestation<D, S>>, committees: seq<seq<V>>, v: V)
    requires FitsCommittees(s, committees)
    ensures v in AttestersOf(s, committees) <==> exists i :: 0 <= i < |s| && VotesIn(s[i], committees, v)
  {
    hide OneCommittee, Committee, Attesters, AttestersOf, FitsCommittees, VotesIn;
    if s == [] {
      NoVotes<D, S, V>(committees);
    } else {
      var last := |s| - 1;
      LastFits(s, committees);
      AttestersOfVote(s[..last], committees, v);
      AttestersOfAppend(s[..last], s[last], committees);
      VoteOfOne(s[last], committees, v);
      assert s == s[..last] + [s[last]];
      if i :| 0 <= i < last && VotesIn(s[i], committees, v) {
        assert s[..last][i] == s[i];
      }
    }
  }

  lemma NoVotes<D, S, V>(committees: seq<seq<V>>)
    ensures AttestersOf<D, S, V>([], committees) == []
  {
  }

  lemma VoteOfOne<D, S, V>(a: Attestation<D, S>, committees: seq<seq<V>>, v: V)
    requires OneCommittee(a) && Committee(a) < |committees|
    ensures v in Attesters(committees[Committee(a)], a.aggregationBits, 0) <==> VotesIn(a, committees, v)
  {
    hide OneCommittee, Committee, Attesters;
    AttesterHasBit(committees[Committee(a)], a.aggregationBits, v);
  }
}
